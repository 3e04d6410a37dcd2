/**
 * `Decimal::operator*=` and `Decimal::operator/=` as functions of the
 * two numbers, with what they promise: the product and the quotient are
 * the nearest Decimals to the exact results at the places they end up
 * with.  Each also has an as-written half where the code does something
 * other than that.
 */
module DecimalMulDiv {
  import opened Arithmetic
  import opened IntTypes
  import NumDigits
  import opened DecimalSpec

  /** |r| for reals. */
  ghost function RAbs(r: real): real {
    if r < 0.0 then -r else r
  }

  lemma DivCancel(a: real, u: real, t: real)
    requires u > 0.0 && t > 0.0
    ensures (a / (u * t)) * u == a / t
  {
    var g := a / (u * t);
    assert g * (u * t) == a;
    assert (g * u) * t == a;
  }
  lemma HalfScaled(a: real, u: real, t: real)
    requires u > 0.0 && t > 0.0 && 2.0 * a <= t
    ensures 2.0 * (a / (u * t)) * u <= 1.0
  {
    DivCancel(a, u, t);
    assert 2.0 * (a / t) <= 1.0;
  }

  lemma FracMul(a: real, b: real, u: real, v: real)
    requires u > 0.0 && v > 0.0
    ensures (a / u) * (b / v) == (a * b) / (u * v)
  {
    var g, h := a / u, b / v;
    assert g * u == a && h * v == b;
    assert (g * h) * (u * v) == a * b;
  }
  lemma SignedAbs(s: real, z: real, w: real)
    requires s * s == 1.0 && w > 0.0
    ensures RAbs(s * z / w) == RAbs(z) / w
  {
    assert s == 1.0 || s == -1.0;
  }
  // The real-number steps of QuotientNearest.
  lemma QuotientDiff(s: real, t: real, m: int, n: int, b: int, u: real, v: real, vd: real, vx: real, vy: real)
    requires t * t == 1.0
    requires IsFrac(vd, s * t * (m as real), u) && IsFrac(vy, t * (b as real), v) && IsFrac(vx, s * (n as real), u * v)
    ensures IsFrac(vd * vy - vx, s * ((m * b - n) as real), u * v)
  {
    FracMul(s * t * (m as real), t * (b as real), u, v);
    NumeratorStep(s, t, m, b);
    DivSub(s * ((m * b) as real), s * (n as real), u * v);
    SubNumerator(s, m * b, n);
  }

  lemma NumeratorStep(s: real, t: real, m: int, b: int)
    requires t * t == 1.0
    ensures s * t * (m as real) * (t * (b as real)) == s * ((m * b) as real)
  {
    assert ((m * b) as real) == (m as real) * (b as real);
    assert s * t * (m as real) * (t * (b as real)) == (s * (m as real) * (b as real)) * (t * t);
  }

  lemma SubNumerator(s: real, a: int, c: int)
    ensures s * (a as real) - s * (c as real) == s * ((a - c) as real)
  {
  }

  /** vd times vy is within half of 10^-u of vx, relative to vy. */
  ghost predicate QuotientWithin(vd: real, vx: real, vy: real, u: real) {
    2.0 * RAbs(vd * vy - vx) * u <= RAbs(vy)
  }

  /**
   * vd, vx and vy are the quotient m / u, the dividend n / (u * v) and the
   * divisor b / v with signs, and m * b is within half of b of n.
   */
  ghost predicate QuotientShape(s: real, t: real, m: int, n: int, b: int, u: real, v: real, vd: real, vx: real, vy: real) {
    RoundedShape(s, t, m, n, b, u, vd) && OperandShape(s, t, n, b, u, v, vx, vy)
  }

  /** The quotient part of QuotientShape. */
  ghost predicate RoundedShape(s: real, t: real, m: int, n: int, b: int, u: real, vd: real) {
    s * s == 1.0 && t * t == 1.0 && b > 0 && 2 * Abs(m * b - n) <= b && IsFrac(vd, s * t * (m as real), u)
  }

  /** The operands part of QuotientShape. */
  ghost predicate OperandShape(s: real, t: real, n: int, b: int, u: real, v: real, vx: real, vy: real) {
    IsFrac(vy, t * (b as real), v) && IsFrac(vx, s * (n as real), u * v)
  }

  lemma QuotientBound(s: real, t: real, m: int, n: int, b: int, u: real, v: real, vd: real, vx: real, vy: real)
    requires QuotientShape(s, t, m, n, b, u, v, vd, vx, vy)
    ensures QuotientWithin(vd, vx, vy, u)
  {
    var z := (m * b - n) as real;
    HalfAsReal(m * b - n, b);
    QuotientDiff(s, t, m, n, b, u, v, vd, vx, vy);
    BoundFromDiff(s, t, z, b as real, u, v, vd, vx, vy);
  }

  lemma HalfAsReal(z: int, b: int)
    requires 2 * Abs(z) <= b
    ensures 2.0 * RAbs(z as real) <= b as real
  {
  }

  lemma BoundFromDiff(s: real, t: real, z: real, b: real, u: real, v: real, vd: real, vx: real, vy: real)
    requires s * s == 1.0 && t * t == 1.0 && b > 0.0
    requires 2.0 * RAbs(z) <= b && IsFrac(vd * vy - vx, s * z, u * v) && IsFrac(vy, t * b, v)
    ensures QuotientWithin(vd, vx, vy, u)
  {
    AbsOfFrac(vd * vy - vx, s, z, u * v);
    AbsOfFrac(vy, t, b, v);
    ScaledHalf(RAbs(z), b, u, v);
  }

  // |s * z / w| = |z| / w for a sign s.
  lemma AbsOfFrac(x: real, s: real, z: real, w: real)
    requires s * s == 1.0 && IsFrac(x, s * z, w)
    ensures RAbs(x) == RAbs(z) / w
  {
    SignedAbs(s, z, w);
  }

  // 2a <= b gives 2 * (a / (u * v)) * u <= |b| / v.
  lemma ScaledHalf(a: real, b: real, u: real, v: real)
    requires 2.0 * a <= b && u > 0.0 && v > 0.0 && b > 0.0
    ensures 2.0 * (a / (u * v)) * u <= RAbs(b) / v
  {
    DivCancel(a, u, v);
    DivLe(2.0 * a, b, v);
    assert 2.0 * (a / v) == (2.0 * a) / v;
  }
  lemma DivSub(a: real, c: real, w: real)
    requires w > 0.0
    ensures a / w - c / w == (a - c) / w
  {
    var g, h := a / w, c / w;
    assert g * w == a && h * w == c;
    assert (g - h) * w == a - c;
  }
  lemma DivLe(a: real, c: real, v: real)
    requires a <= c && v > 0.0
    ensures a / v <= c / v
  {
    var g, h := a / v, c / v;
    assert g * v == a && h * v == c;
    assert (h - g) * v == c - a;
  }

  // ---------------------------------------------------------------------
  // *=

  /** Rationalized(x, 0): the form `operator*=` and `operator/=` work on. */
  function Shortest(x: Dec): Dec {
    Rationalized(x, 0)
  }

  /**
   * `operator*=`: rationalize both; refuse the smallest intval, whose
   * magnitude does not fit; multiply the magnitudes if that fits and add
   * the places; round to at most 19 places; put the sign back;
   * rationalize.  The rounding here is a single rounding to 19 places.
   */
  function Product(x: Dec, y: Dec): Result<Dec> {
    var a, b := Shortest(x), Shortest(y);
    if a.intval == LLongMin || b.intval == LLongMin then Err(MultiplicationError)
    else if !InLLong(ProductMagnitude(a, b)) then Err(MultiplicationError)
    else Ok(Shortest(SignedProduct(a, b)))
  }

  /** intvals multiply, places add. */
  lemma ValueMul(i: int, j: int, p: nat, q: nat)
    ensures Value(Dec(i * j, p + q)) == Value(Dec(i, p)) * Value(Dec(j, q))
  {
    PowAdd(10, p, q);
    PowPositive(10, p);
    PowPositive(10, q);
    var u, v := Pow10(p) as real, Pow10(q) as real;
    assert Pow10(p + q) as real == u * v;
    assert (i * j) as real == i as real * j as real;
  }

  /** a is within half of 1 / u of b. */
  ghost predicate Near(a: real, b: real, u: real) {
    2.0 * RAbs(a - b) * u <= 1.0
  }

  /** An intval within half a unit of 10^k, read at p + k places, is within half a unit at p places. */
  lemma HalfUnit(z: int, p: nat, k: nat)
    requires 2 * Abs(z) <= Pow10(k)
    ensures Near(Value(Dec(z, p + k)), 0.0, Pow10(p) as real)
  {
    Pow10Positive(p);
    Pow10Positive(k);
    var v := Value(Dec(z, p + k));
    assert IsFrac(v, Sign(z) * (Abs(z) as real), (Pow10(p) as real) * (Pow10(k) as real)) by {
      SignedValueSplit(z, p, k);
    }
    HalfUnitReal(v, z, Pow10(p), Pow10(k));
  }

  // A number at p + k places, over 10^p * 10^k.
  lemma SignedValueSplit(z: int, p: nat, k: nat)
    ensures IsFrac(Value(Dec(z, p + k)), Sign(z) * (Abs(z) as real), (Pow10(p) as real) * (Pow10(k) as real))
  {
    SignedValue(z, p + k);
    PowAddReal(p, k);
    IsFracSubst(Value(Dec(z, p + k)), Value(Dec(z, p + k)), Sign(z) * (Abs(z) as real), Sign(z) * (Abs(z) as real),
      Pow10(p + k) as real, (Pow10(p) as real) * (Pow10(k) as real));
  }

  // HalfUnit on reals: z / (u * t) with 2|z| <= t is within half of 1 / u of 0.
  lemma HalfUnitReal(v: real, z: int, u: int, t: int)
    requires u > 0 && t > 0 && 2 * Abs(z) <= t
    requires IsFrac(v, Sign(z) * (Abs(z) as real), (u as real) * (t as real))
    ensures Near(v, 0.0, u as real)
  {
    SignSquare(z);
    SignedAbs(Sign(z), Abs(z) as real, (u as real) * (t as real));
    HalfScaled(Abs(z) as real, u as real, t as real);
  }

  /** The exact product of two Decimals: intvals multiply, places add. */
  function ExactProduct(x: Dec, y: Dec): Dec {
    Dec(x.intval * y.intval, x.places + y.places)
  }

  lemma ExactProductValue(x: Dec, y: Dec)
    ensures Value(ExactProduct(x, y)) == Value(x) * Value(y)
  {
    ValueMul(x.intval, y.intval, x.places, y.places);
  }

  // The exact product depends only on the numbers.
  lemma ExactProductOfEqual(x: Dec, y: Dec, a: Dec, b: Dec)
    requires Value(x) == Value(a) && Value(y) == Value(b)
    ensures Value(ExactProduct(x, y)) == Value(ExactProduct(a, b))
  {
    ExactProductValue(x, y);
    ExactProductValue(a, b);
  }

  /** A magnitude with a sign put back. */
  function SignedMag(m: nat, negative: bool): int {
    if negative then -(m as int) else m
  }

  // Rounding a signed magnitude m from P + k places to P is off by at most half of 10^-P.
  lemma ProductRounded(m: nat, k: nat, differ: bool, P: nat)
    ensures Near(Value(Dec(SignedMag(RoundHalfAway(m, k), differ), P)), Value(Dec(SignedMag(m, differ), P + k)),
      Pow10(P) as real)
  {
    var sc, sm := SignedMag(RoundHalfAway(m, k), differ), SignedMag(m, differ);
    SignedRoundingError(m, k, differ);
    ScaledDifference(sc, sm, P, k);
    HalfUnit(sc * Pow10(k) - sm, P, k);
    NearOfDifference(Value(Dec(sc, P)), Value(Dec(sm, P + k)), Value(Dec(sc * Pow10(k) - sm, P + k)), Pow10(P) as real);
  }

  // a - b == c and c near 0 make a near b.
  lemma NearOfDifference(a: real, b: real, c: real, u: real)
    requires a - b == c && Near(c, 0.0, u)
    ensures Near(a, b, u)
  {
  }

  // The signed rounding error is at most half of 10^k.
  lemma SignedRoundingError(m: nat, k: nat, differ: bool)
    ensures 2 * Abs(SignedMag(RoundHalfAway(m, k), differ) * Pow10(k) - SignedMag(m, differ)) <= Pow10(k)
  {
    RoundHalfAwayNearest(m, k);
    SignedError(m, RoundHalfAway(m, k), Pow10(k), differ);
  }

  // Negating both sides keeps the error's size.
  lemma SignedError(m: nat, c: int, t: int, differ: bool)
    requires c >= 0 && 2 * Abs(m - c * t) <= t
    ensures 2 * Abs(SignedMag(c, differ) * t - SignedMag(m, differ)) <= t
  {
    if differ {
      assert -(c as int) * t - (-(m as int)) == m - c * t;
    } else {
      assert c * t - m == -(m - c * t);
    }
  }

  // The difference of i at p places and j at p + k places, at p + k places.
  lemma ScaledDifference(i: int, j: int, p: nat, k: nat)
    ensures Value(Dec(i, p)) - Value(Dec(j, p + k)) == Value(Dec(i * Pow10(k) - j, p + k))
  {
    ScaleValue(Dec(i, p), k);
    ValueLinear(i * Pow10(k), j, p + k);
  }

  /** The magnitude of the product of the intvals. */
  function ProductMagnitude(a: Dec, b: Dec): nat {
    Abs(a.intval) * Abs(b.intval)
  }

  /** Whether the product is negative. */
  function SignsDiffer(a: Dec, b: Dec): bool {
    (a.intval < 0 && b.intval > 0) || (a.intval > 0 && b.intval < 0)
  }

  // The signed, rounded product of the magnitudes of a and b: the pair `operator*=` rationalizes last.
  function SignedProduct(a: Dec, b: Dec): Dec {
    var m, p := ProductMagnitude(a, b), a.places + b.places;
    if p > MaxPlaces then Dec(SignedMag(RoundHalfAway(m, p - MaxPlaces), SignsDiffer(a, b)), MaxPlaces)
    else Dec(SignedMag(m, SignsDiffer(a, b)), p)
  }

  // The signed product of the magnitudes is the product.
  lemma SignedMagnitudes(a: Dec, b: Dec)
    ensures SignedMag(ProductMagnitude(a, b), SignsDiffer(a, b)) == a.intval * b.intval
  {
  }

  // SignedProduct is the exact product, rounded once when more than 19 places are needed.
  lemma SignedProductNearest(a: Dec, b: Dec)
    requires Valid(a) && Valid(b) && InLLong(ProductMagnitude(a, b))
    ensures Valid(SignedProduct(a, b))
    ensures a.places + b.places <= MaxPlaces ==> SignedProduct(a, b) == ExactProduct(a, b)
    ensures Near(Value(SignedProduct(a, b)), Value(ExactProduct(a, b)), Pow10(MaxPlaces) as real)
  {
    SignedMagnitudes(a, b);
    if a.places + b.places > MaxPlaces {
      RoundedProductValid(a, b);
      RoundedProduct(a, b);
    } else {
      PowPositive(10, MaxPlaces);
      NearSelf(Value(SignedProduct(a, b)), Pow10(MaxPlaces) as real);
    }
  }

  lemma NearSelf(a: real, u: real)
    requires u > 0.0
    ensures Near(a, a, u)
  {
  }

  // The rounded product fits.
  lemma RoundedProductValid(a: Dec, b: Dec)
    requires InLLong(ProductMagnitude(a, b)) && a.places + b.places > MaxPlaces
    ensures Valid(SignedProduct(a, b))
  {
    RoundHalfAwayBound(ProductMagnitude(a, b), a.places + b.places - MaxPlaces);
  }

  // The case of SignedProductNearest that rounds.
  lemma RoundedProduct(a: Dec, b: Dec)
    requires a.places + b.places > MaxPlaces
    ensures Near(Value(SignedProduct(a, b)), Value(ExactProduct(a, b)), Pow10(MaxPlaces) as real)
  {
    var k := a.places + b.places - MaxPlaces;
    SignedMagnitudes(a, b);
    assert ExactProduct(a, b) == Dec(SignedMag(ProductMagnitude(a, b), SignsDiffer(a, b)), MaxPlaces + k);
    ProductRounded(ProductMagnitude(a, b), k, SignsDiffer(a, b), MaxPlaces);
  }

  /**
   * What `operator*=` promises: a product that succeeds is a valid
   * Decimal, the exact product when the places of the rationalized
   * operands add up to at most 19, and otherwise within half of 10^-19
   * of it.
   */
  lemma ProductNearest(x: Dec, y: Dec, d: Dec)
    requires Valid(x) && Valid(y) && Product(x, y) == Ok(d)
    ensures Valid(d)
    ensures Shortest(x).places + Shortest(y).places <= MaxPlaces ==> Value(d) == Value(ExactProduct(x, y))
    ensures Near(Value(d), Value(ExactProduct(x, y)), Pow10(MaxPlaces) as real)
  {
    ProductValid(x, y, d);
    ProductDistance(x, y, d, Value(d), Value(ExactProduct(x, y)));
  }

  // A product that succeeds is a valid Decimal.
  lemma ProductValid(x: Dec, y: Dec, d: Dec)
    requires Valid(x) && Valid(y) && Product(x, y) == Ok(d)
    ensures Valid(d)
  {
    var sp := SignedProduct(Shortest(x), Shortest(y));
    ShortestValid(x, y);
    assert d == Shortest(sp);
    RationalizedValid(sp, 0);
  }

  // The rationalized operands are valid, and so is their signed product when the magnitudes' product fits.
  lemma ShortestValid(x: Dec, y: Dec)
    requires Valid(x) && Valid(y) && Product(x, y).Ok?
    ensures Valid(SignedProduct(Shortest(x), Shortest(y)))
  {
    RationalizedValid(x, 0);
    RationalizedValid(y, 0);
    SignedProductNearest(Shortest(x), Shortest(y));
  }

  // ProductNearest on the two numbers as reals.
  lemma ProductDistance(x: Dec, y: Dec, d: Dec, r: real, e: real)
    requires Valid(x) && Valid(y) && Product(x, y) == Ok(d)
    requires r == Value(d) && e == Value(ExactProduct(x, y))
    ensures Shortest(x).places + Shortest(y).places <= MaxPlaces ==> r == e
    ensures Near(r, e, Pow10(MaxPlaces) as real)
  {
    var a, b := Shortest(x), Shortest(y);
    var sp := SignedProduct(a, b);
    assert d == Shortest(sp);
    RationalizedValue(sp, 0);
    ExactProductOfShortest(x, y);
    ShortestProductNearest(x, y, r, e);
  }

  // SignedProductNearest for the rationalized operands.
  lemma ShortestProductNearest(x: Dec, y: Dec, r: real, e: real)
    requires Valid(x) && Valid(y) && InLLong(ProductMagnitude(Shortest(x), Shortest(y)))
    requires r == Value(SignedProduct(Shortest(x), Shortest(y))) && e == Value(ExactProduct(Shortest(x), Shortest(y)))
    ensures Shortest(x).places + Shortest(y).places <= MaxPlaces ==> r == e
    ensures Near(r, e, Pow10(MaxPlaces) as real)
  {
    RationalizedValid(x, 0);
    RationalizedValid(y, 0);
    SignedProductNearest(Shortest(x), Shortest(y));
  }

  // Rationalizing the operands does not change the exact product.
  lemma ExactProductOfShortest(x: Dec, y: Dec)
    ensures Value(ExactProduct(x, y)) == Value(ExactProduct(Shortest(x), Shortest(y)))
  {
    RationalizedValue(x, 0);
    RationalizedValue(y, 0);
    ExactProductOfEqual(x, y, Shortest(x), Shortest(y));
  }

  /**
   * As written, the guard of `operator*=` compares the number with
   * minimum(), -9223372036854775808 with no places.  For -0.9223372036854775808
   * the intval is the same but the number is not, so the guard lets it
   * through and making it absolute overflows.
   */
  ghost predicate MulGuardPassesAsWritten(x: Dec, y: Dec) {
    Value(Shortest(x)) != Value(Dec(LLongMin, 0)) && Value(Shortest(y)) != Value(Dec(LLongMin, 0))
  }

  lemma MulGuardCounterexample()
    ensures Valid(Dec(LLongMin, 1))
    ensures MulGuardPassesAsWritten(Dec(LLongMin, 1), Dec(1, 0))
    ensures Shortest(Dec(LLongMin, 1)).intval == LLongMin && !InLLong(-LLongMin)
    ensures Product(Dec(LLongMin, 1), Dec(1, 0)) == Err(MultiplicationError)
  {
    assert Shortest(Dec(LLongMin, 1)) == Dec(LLongMin, 1);
    assert Shortest(Dec(1, 0)) == Dec(1, 0);
    ValueEq(Dec(LLongMin, 1), Dec(LLongMin, 0));
  }

  /** Where the as-written guard refuses, the corrected one does too. */
  lemma MulGuardCorrectedIsStricter(x: Dec, y: Dec)
    requires !MulGuardPassesAsWritten(x, y)
    ensures Shortest(x).intval == LLongMin || Shortest(y).intval == LLongMin
  {
    RationalizedCanonical(x);
    RationalizedCanonical(y);
    assert Canonical(Dec(LLongMin, 0));
    if Value(Shortest(x)) == Value(Dec(LLongMin, 0)) {
      CanonicalUnique(Shortest(x), Dec(LLongMin, 0));
    } else {
      CanonicalUnique(Shortest(y), Dec(LLongMin, 0));
    }
  }

  /**
   * As written, the product is brought down to 19 places one place at a
   * time, rounding at each step.
   */
  function RoundStepwise(m: int, k: nat): int
    decreases k
  {
    if k == 0 then m else RoundStepwise(RoundHalfAway(m, 1), k - 1)
  }

  /**
   * 1e-19 * 0.45 is 4.5e-21; the nearest Decimal with 19 places is 0, but
   * rounding 45 to 5 and then 5 to 1 gives 1e-19.
   */
  lemma DoubleRoundingCounterexample()
    ensures RoundStepwise(45, 2) == 1
    ensures RoundHalfAway(45, 2) == 0
    ensures Product(Dec(1, MaxPlaces), Dec(45, 2)) == Ok(Dec(0, 0))
  {
    assert RoundHalfAway(45, 1) == 5 by {
      assert Pow10(1) == 10;
    }
    assert RoundHalfAway(5, 1) == 1 by {
      assert Pow10(1) == 10;
    }
    assert RoundStepwise(5, 1) == RoundStepwise(1, 0);
    assert RoundHalfAway(45, 2) == 0 by {
      assert Pow10(2) == 100;
    }
    assert Shortest(Dec(1, MaxPlaces)) == Dec(1, MaxPlaces);
    assert Shortest(Dec(45, 2)) == Dec(45, 2);
  }

  // ---------------------------------------------------------------------
  // /=

  /**
   * The long-division loop of `operator/=` on the quotient q and the
   * remainder r of the divisor b: while a remainder is left and another
   * place fits, bring down a zero.  Here the remainder is kept exactly,
   * and a place is added only when the longer quotient fits.
   */
  function LongDivision(q: nat, r: nat, b: nat, places: nat): (res: (nat, nat, nat))
    requires b > 0
    ensures places <= res.1
    ensures places <= MaxPlaces ==> res.1 <= MaxPlaces
    ensures InLLong(q) ==> InLLong(res.0)
    decreases MaxPlaces - places
  {
    if r != 0 && places < MaxPlaces && InLLong(q * 10 + (r * 10) / b) then
      LongDivision(q * 10 + (r * 10) / b, (r * 10) % b, b, places + 1)
    else (q, places, r)
  }

  /**
   * Long division keeps quotient and remainder exact: after it, q and r
   * are the quotient and remainder of the dividend with a zero brought
   * down for each place added; it stops only when nothing is left, 19
   * places are reached, or one more place does not fit.
   */
  lemma {:induction false} LongDivisionExact(q: nat, r: nat, b: nat, places: nat, n: nat)
    requires b > 0 && r < b && n == q * b + r
    ensures var (q', p', r') := LongDivision(q, r, b, places);
      places <= p' && r' < b &&
      q' * b + r' == n * Pow10(p' - places) &&
      (r' == 0 || p' >= MaxPlaces || !InLLong(q' * 10 + (r' * 10) / b))
    decreases MaxPlaces - places
  {
    if r != 0 && places < MaxPlaces && InLLong(q * 10 + (r * 10) / b) {
      var q1, r1 := q * 10 + (r * 10) / b, (r * 10) % b;
      LongDivisionStep(q, r, b);
      LongDivisionExact(q1, r1, b, places + 1, n * 10);
      var (q', p', r') := LongDivision(q1, r1, b, places + 1);
      ShiftPow(n, p' - (places + 1));
    }
  }

  // Bringing down a zero multiplies the dividend by 10.
  lemma LongDivisionStep(q: nat, r: nat, b: nat)
    requires b > 0
    ensures (r * 10) % b < b
    ensures (q * 10 + (r * 10) / b) * b + (r * 10) % b == (q * b + r) * 10
  {
    var t := r * 10;
    assert t / b * b + t % b == t;
    assert (q * 10 + t / b) * b == q * 10 * b + t / b * b;
  }

  // n * 10 * 10^k == n * 10^(k + 1).
  lemma ShiftPow(n: int, k: nat)
    ensures n * 10 * Pow10(k) == n * Pow10(k + 1)
  {
    assert Pow10(k + 1) == 10 * Pow10(k);
  }

  /**
   * As written, the long-division loop adds a place whenever the quotient
   * times ten fits (that is, whenever rescale succeeds); the remainder is
   * then multiplied by ten and the digit it yields is added, neither of
   * them checked.
   */
  predicate PlaceAddedAsWritten(q: nat, r: nat, places: nat) {
    r != 0 && places < MaxPlaces && InLLong(q * 10)
  }

  /**
   * 6456360425798343066 / 7: the first quotient is 922337203685477580
   * with remainder 6.  Rescaling to one place fits, but adding the digit
   * 8 goes past the largest long long.  LongDivision stops there instead.
   */
  lemma DigitAddCounterexample()
    ensures 6456360425798343066 == 922337203685477580 * 7 + 6
    ensures PlaceAddedAsWritten(922337203685477580, 6, 0)
    ensures !InLLong(922337203685477580 * 10 + (6 * 10) / 7)
    ensures LongDivision(922337203685477580, 6, 7, 0) == (922337203685477580, 0, 6)
  {
  }

  /**
   * 999999999999999998 / 999999999999999999: the divisor has 18 digits,
   * so the guard lets it through; the first quotient is 0 with remainder
   * 999999999999999998, and the remainder times ten does not fit.  In
   * LongDivision the remainder stays below the divisor and the digit
   * brought down is 9.
   */
  lemma RemainderTimesTenCounterexample()
    ensures NumDigits.DigitCount(999999999999999999, 10) == 18
    ensures PlaceAddedAsWritten(0, 999999999999999998, 0)
    ensures !InLLong(999999999999999998 * 10)
    ensures (999999999999999998 * 10) / 999999999999999999 == 9
  {
    ExampleDigitCount();
  }

  // 999999999999999999 has 18 digits.
  lemma ExampleDigitCount()
    ensures NumDigits.DigitCount(999999999999999999, 10) == 18
  {
    var n := 999999999999999999;
    assert NumDigits.DigitCount(n / 100000000000000000, 10) == 1;
    assert NumDigits.DigitCount(n / 10000000000000000, 10) == 2;
    assert NumDigits.DigitCount(n / 1000000000000000, 10) == 3;
    assert NumDigits.DigitCount(n / 100000000000000, 10) == 4;
    assert NumDigits.DigitCount(n / 10000000000000, 10) == 5;
    assert NumDigits.DigitCount(n / 1000000000000, 10) == 6;
    assert NumDigits.DigitCount(n / 100000000000, 10) == 7;
    assert NumDigits.DigitCount(n / 10000000000, 10) == 8;
    assert NumDigits.DigitCount(n / 1000000000, 10) == 9;
    assert NumDigits.DigitCount(n / 100000000, 10) == 10;
    assert NumDigits.DigitCount(n / 10000000, 10) == 11;
    assert NumDigits.DigitCount(n / 1000000, 10) == 12;
    assert NumDigits.DigitCount(n / 100000, 10) == 13;
    assert NumDigits.DigitCount(n / 10000, 10) == 14;
    assert NumDigits.DigitCount(n / 1000, 10) == 15;
    assert NumDigits.DigitCount(n / 100, 10) == 16;
    assert NumDigits.DigitCount(n / 10, 10) == 17;
  }

  /** The steps of `operator/=` up to the rounding: (quotient magnitude, places, remainder, divisor magnitude, signs differ). */
  datatype Division = Division(q: nat, places: nat, r: nat, b: nat, differ: bool)

  /**
   * `operator/=` up to the final rounding: rationalize the divisor;
   * refuse zero, the smallest intval on either side, and a divisor of 19
   * digits; make both absolute; raise the dividend to the divisor's
   * places, refusing if that does not fit; divide; long division.
   */
  function Divided(x: Dec, y: Dec): Result<Division> {
    var d := Shortest(y);
    if d.intval == 0 then Err(DivisionByZeroError)
    else if x.intval == LLongMin || d.intval == LLongMin then Err(DivisionError)
    else if NumDigits.DigitCount(Abs(d.intval), 10) == MaxPlaces then Err(DivisionError)
    else if !InLLong(Raised(x, d)) then Err(DivisionError)
    else
      var b := Abs(d.intval);
      var differ := (x.intval > 0 && d.intval < 0) || (x.intval < 0 && d.intval > 0);
      var res := StartDivision(Raised(x, d), b, StartPlaces(x, d));
      Ok(Division(res.0, res.1, res.2, b, differ))
  }

  /** Long division of n by b, from the first quotient and remainder, at p0 places. */
  function StartDivision(n: nat, b: nat, p0: nat): (nat, nat, nat)
    requires b > 0
  {
    LongDivision(n / b, n % b, b, p0)
  }

  /** The places the dividend is raised by: up to the divisor's. */
  function Up(x: Dec, d: Dec): nat {
    if x.places < d.places then d.places - x.places else 0
  }

  /** The magnitude of the dividend, raised to the divisor's places. */
  function Raised(x: Dec, d: Dec): nat {
    PowPositive(10, Up(x, d));
    Abs(x.intval) * Pow10(Up(x, d))
  }

  /** The places of the quotient before long division. */
  function StartPlaces(x: Dec, d: Dec): nat {
    if x.places < d.places then 0 else x.places - d.places
  }

  /** `operator/=`: round half up in magnitude, refuse if that overflows, put the sign back, rationalize. */
  function Quotient(x: Dec, y: Dec): Result<Dec> {
    match Divided(x, y)
    case Err(e) => Err(e)
    case Ok(dv) =>
      if !InLLong(RoundedMagnitude(dv)) then Err(DivisionError)
      else Ok(Shortest(Rounded(dv)))
  }

  /** The magnitude of the quotient, rounded half up on the remainder. */
  function RoundedMagnitude(dv: Division): nat {
    if dv.b - dv.r <= dv.r then dv.q + 1 else dv.q
  }

  /** The rounded, signed quotient before the final rationalize. */
  function Rounded(dv: Division): Dec {
    var m := RoundedMagnitude(dv);
    Dec(if dv.differ then -(m as int) else m, dv.places)
  }

  /** `x` is `sign * magnitude`. */
  function Sign(i: int): real {
    if i < 0 then -1.0 else 1.0
  }

  /** v is a / w, with w positive. */
  ghost predicate IsFrac(v: real, a: real, w: real) {
    w > 0.0 && v == a / w
  }

  // A number is its sign times its magnitude.
  lemma SignedValue(i: int, p: nat)
    ensures IsFrac(Value(Dec(i, p)), Sign(i) * (Abs(i) as real), Pow10(p) as real)
  {
    PowPositive(10, p);
  }

  // The dividend, read with its intval scaled to p + pe places.
  lemma DividendValue(i: int, px: nat, p: nat, pe: nat, n: nat)
    requires p + pe >= px && n == Abs(i) * Pow10(p + pe - px)
    ensures IsFrac(Value(Dec(i, px)), Sign(i) * (n as real), (Pow10(p) as real) * (Pow10(pe) as real))
  {
    var k := p + pe - px;
    PowPositive(10, k);
    ScaleValue(Dec(i, px), k);
    SignedValue(i * Pow10(k), px + k);
    ScaledSign(i, Pow10(k));
    PowAddReal(p, pe);
    IsFracSubst(Value(Dec(i * Pow10(k), px + k)), Value(Dec(i, px)),
      Sign(i * Pow10(k)) * (Abs(i * Pow10(k)) as real), Sign(i) * (n as real),
      Pow10(px + k) as real, (Pow10(p) as real) * (Pow10(pe) as real));
  }

  // Equal parts make equal fractions.
  lemma IsFracSubst(v: real, v': real, a: real, a': real, w: real, w': real)
    requires IsFrac(v, a, w) && v == v' && a == a' && w == w'
    ensures IsFrac(v', a', w')
  {
  }

  // Scaling by a positive factor keeps the sign and scales the magnitude.
  lemma ScaledSign(i: int, f: int)
    requires f > 0
    ensures Sign(i * f) * (Abs(i * f) as real) == Sign(i) * ((Abs(i) * f) as real)
  {
    if i < 0 {
      MulMonotone(i, -1, f);
      assert i * f == -(Abs(i) * f);
    } else {
      MulMonotone(0, i, f);
    }
  }

  // 10^(p + q) = 10^p * 10^q, as reals.
  lemma PowAddReal(p: nat, q: nat)
    ensures Pow10(p + q) as real == (Pow10(p) as real) * (Pow10(q) as real)
  {
    PowAdd(10, p, q);
    assert Pow10(p + q) == Pow10(p) * Pow10(q);
  }

  /** What the long division of `operator/=` computes, in terms of the operands. */
  lemma DividedFacts(x: Dec, y: Dec)
    requires Valid(x) && Valid(y) && Divided(x, y).Ok?
    ensures var e, dv := Shortest(y), Divided(x, y).value;
      dv.b == Abs(e.intval) && dv.b > 0 && dv.r < dv.b &&
      dv.places <= MaxPlaces && dv.places + e.places >= x.places &&
      dv.q * dv.b + dv.r == Abs(x.intval) * Pow10(dv.places + e.places - x.places) &&
      (dv.differ <==> (x.intval > 0 && e.intval < 0) || (x.intval < 0 && e.intval > 0)) &&
      (dv.r == 0 || dv.places == MaxPlaces || !InLLong(dv.q * 10 + (dv.r * 10) / dv.b))
  {
    var e := Shortest(y);
    RationalizedValid(y, 0);
    var dv := Divided(x, y).value;
    LongDivisionFrom(Raised(x, e), dv.b, StartPlaces(x, e));
    RaisedScale(x, e, dv.places);
  }

  // Long division from the quotient and remainder of n.
  lemma LongDivisionFrom(n: nat, b: nat, p0: nat)
    requires b > 0 && p0 <= MaxPlaces
    ensures var res := StartDivision(n, b, p0);
      p0 <= res.1 <= MaxPlaces && res.2 < b &&
      res.0 * b + res.2 == n * Pow10(res.1 - p0) &&
      (res.2 == 0 || res.1 >= MaxPlaces || !InLLong(res.0 * 10 + (res.2 * 10) / b))
  {
    LongDivisionExact(n / b, n % b, b, p0, n);
  }

  // The raised dividend, scaled on to p places of quotient.
  lemma RaisedScale(x: Dec, e: Dec, p: nat)
    requires StartPlaces(x, e) <= p
    ensures p + e.places >= x.places
    ensures Raised(x, e) * Pow10(p - StartPlaces(x, e)) == Abs(x.intval) * Pow10(p + e.places - x.places)
  {
    var up, k := Up(x, e), p - StartPlaces(x, e);
    PowAdd(10, up, k);
    assert up + k == p + e.places - x.places;
    assert Abs(x.intval) * Pow10(up) * Pow10(k) == Abs(x.intval) * (Pow10(up) * Pow10(k));
  }

  // Rounding half up: the rounded quotient is within half the divisor.
  lemma HalfUp(dv: Division)
    requires dv.r < dv.b
    ensures 2 * Abs(RoundedMagnitude(dv) * dv.b - (dv.q * dv.b + dv.r)) <= dv.b
  {
  }

  /**
   * What `operator/=` promises: a quotient that succeeds is a valid
   * Decimal whose product with the divisor is within half a unit of the
   * dividend's last place, so it is the nearest number with that many
   * places to the exact quotient.  Those places are 19, or as many as
   * the quotient fits in, or the division came out exact.
   */
  lemma QuotientNearest(x: Dec, y: Dec, d: Dec)
    requires Valid(x) && Valid(y) && Quotient(x, y) == Ok(d)
    ensures Value(y) != 0.0 && Valid(d)
    ensures var dv := Divided(x, y).value;
      dv.places <= MaxPlaces &&
      QuotientWithin(Value(d), Value(x), Value(y), Pow10(dv.places) as real)
    ensures var dv := Divided(x, y).value;
      dv.r == 0 || dv.places == MaxPlaces || !InLLong(dv.q * 10 + (dv.r * 10) / dv.b)
  {
    DividedFacts(x, y);
    QuotientValid(x, y, d);
    QuotientDistance(x, y, d, Value(d), Value(x), Value(y));
  }

  // A quotient that succeeds is the rationalized rounded quotient.
  lemma QuotientIs(x: Dec, y: Dec)
    requires Quotient(x, y).Ok?
    ensures Divided(x, y).Ok?
    ensures InLLong(RoundedMagnitude(Divided(x, y).value))
    ensures Quotient(x, y).value == Shortest(Rounded(Divided(x, y).value))
  {
  }

  // A number with a non-zero intval is not zero.
  lemma NonZeroValue(d: Dec)
    requires d.intval != 0
    ensures Value(d) != 0.0
  {
    PowPositive(10, d.places);
  }

  // The quotient is valid, and the divisor is not zero.
  lemma QuotientValid(x: Dec, y: Dec, d: Dec)
    requires Valid(x) && Valid(y) && Quotient(x, y) == Ok(d)
    ensures Valid(d) && Value(y) != 0.0
  {
    QuotientIs(x, y);
    DividedFacts(x, y);
    RationalizedValid(Rounded(Divided(x, y).value), 0);
    RationalizedValue(y, 0);
    NonZeroValue(Shortest(y));
  }

  // QuotientNearest on the numbers as reals.
  lemma QuotientDistance(x: Dec, y: Dec, d: Dec, vd: real, vx: real, vy: real)
    requires Valid(x) && Valid(y) && Quotient(x, y) == Ok(d)
    requires vd == Value(d) && vx == Value(x) && vy == Value(y)
    ensures QuotientWithin(vd, vx, vy, Pow10(Divided(x, y).value.places) as real)
  {
    QuotientIs(x, y);
    var dv := Divided(x, y).value;
    RationalizedValue(y, 0);
    RationalizedValue(Rounded(dv), 0);
    DividedNearest(x, y);
    SameQuotientDistance(vd, vx, vy, Value(Rounded(dv)), Value(x), Value(Shortest(y)), Pow10(dv.places) as real);
  }

  // The rounded quotient of the long division, against the rationalized divisor.
  lemma DividedNearest(x: Dec, y: Dec)
    requires Valid(x) && Valid(y) && Divided(x, y).Ok?
    ensures QuotientWithin(Value(Rounded(Divided(x, y).value)), Value(x), Value(Shortest(y)),
      Pow10(Divided(x, y).value.places) as real)
  {
    DividedFacts(x, y);
    var e := Shortest(y);
    SignedQuotientNearest(x.intval, x.places, e.intval, e.places, Divided(x, y).value);
    assert Dec(x.intval, x.places) == x && Dec(e.intval, e.places) == e;
  }

  // Equal numbers are at equal distances.
  lemma SameQuotientDistance(vd: real, vx: real, vy: real, vd': real, vx': real, vy': real, u: real)
    requires vd == vd' && vx == vx' && vy == vy'
    requires QuotientWithin(vd', vx', vy', u)
    ensures QuotientWithin(vd, vx, vy, u)
  {
  }

  /**
   * The rounded quotient of the long division of i at px places by j at
   * pe places, as reals.
   */
  lemma SignedQuotientNearest(i: int, px: nat, j: int, pe: nat, dv: Division)
    requires dv.b == Abs(j) && dv.b > 0 && dv.r < dv.b && dv.places + pe >= px
    requires dv.q * dv.b + dv.r == Abs(i) * Pow10(dv.places + pe - px)
    requires dv.differ <==> (i > 0 && j < 0) || (i < 0 && j > 0)
    ensures QuotientWithin(Value(Rounded(dv)), Value(Dec(i, px)), Value(Dec(j, pe)), Pow10(dv.places) as real)
  {
    var n := dv.q * dv.b + dv.r;
    QuotientTerms(i, px, j, pe, dv);
    QuotientBound(Sign(i), Sign(j), RoundedMagnitude(dv), n, dv.b, Pow10(dv.places) as real, Pow10(pe) as real,
      Value(Rounded(dv)), Value(Dec(i, px)), Value(Dec(j, pe)));
  }

  // The three numbers of SignedQuotientNearest as signs and magnitudes.
  lemma QuotientTerms(i: int, px: nat, j: int, pe: nat, dv: Division)
    requires dv.b == Abs(j) && dv.b > 0 && dv.r < dv.b && dv.places + pe >= px
    requires dv.q * dv.b + dv.r == Abs(i) * Pow10(dv.places + pe - px)
    requires dv.differ <==> (i > 0 && j < 0) || (i < 0 && j > 0)
    ensures QuotientShape(Sign(i), Sign(j), RoundedMagnitude(dv), dv.q * dv.b + dv.r, dv.b,
      Pow10(dv.places) as real, Pow10(pe) as real, Value(Rounded(dv)), Value(Dec(i, px)), Value(Dec(j, pe)))
  {
    RoundedTerms(i, px, j, pe, dv);
    OperandTerms(i, px, j, pe, dv);
  }

  lemma RoundedTerms(i: int, px: nat, j: int, pe: nat, dv: Division)
    requires dv.b == Abs(j) && dv.b > 0 && dv.r < dv.b && dv.places + pe >= px
    requires dv.q * dv.b + dv.r == Abs(i) * Pow10(dv.places + pe - px)
    requires dv.differ <==> (i > 0 && j < 0) || (i < 0 && j > 0)
    ensures RoundedShape(Sign(i), Sign(j), RoundedMagnitude(dv), dv.q * dv.b + dv.r, dv.b,
      Pow10(dv.places) as real, Value(Rounded(dv)))
  {
    HalfUp(dv);
    RoundedValue(i, j, dv);
    SignSquare(i);
    SignSquare(j);
  }

  lemma OperandTerms(i: int, px: nat, j: int, pe: nat, dv: Division)
    requires dv.b == Abs(j) && dv.places + pe >= px
    requires dv.q * dv.b + dv.r == Abs(i) * Pow10(dv.places + pe - px)
    ensures OperandShape(Sign(i), Sign(j), dv.q * dv.b + dv.r, dv.b,
      Pow10(dv.places) as real, Pow10(pe) as real, Value(Dec(i, px)), Value(Dec(j, pe)))
  {
    DividendValue(i, px, dv.places, pe, dv.q * dv.b + dv.r);
    DivisorValue(j, pe, dv.b);
  }

  // The divisor as its sign times its magnitude b.
  lemma DivisorValue(j: int, pe: nat, b: int)
    requires b == Abs(j)
    ensures IsFrac(Value(Dec(j, pe)), Sign(j) * (b as real), Pow10(pe) as real)
  {
    SignedValue(j, pe);
  }

  lemma SignSquare(i: int)
    ensures Sign(i) * Sign(i) == 1.0
  {
  }

  // The rounded quotient is the rounded magnitude with the product of the signs.
  lemma RoundedValue(i: int, j: int, dv: Division)
    requires dv.r < dv.b && j != 0 && (dv.differ <==> (i > 0 && j < 0) || (i < 0 && j > 0))
    requires i == 0 ==> dv.q * dv.b + dv.r == 0
    ensures IsFrac(Value(Rounded(dv)), Sign(i) * Sign(j) * (RoundedMagnitude(dv) as real), Pow10(dv.places) as real)
  {
    SignedValue(Rounded(dv).intval, dv.places);
    RoundedSign(i, j, dv);
  }

  // The sign of the rounded quotient is the product of the signs.
  lemma RoundedSign(i: int, j: int, dv: Division)
    requires dv.r < dv.b && j != 0 && (dv.differ <==> (i > 0 && j < 0) || (i < 0 && j > 0))
    requires i == 0 ==> dv.q * dv.b + dv.r == 0
    ensures Sign(Rounded(dv).intval) * (Abs(Rounded(dv).intval) as real) == Sign(i) * Sign(j) * (RoundedMagnitude(dv) as real)
  {
    if i == 0 {
      assert dv.q * dv.b == 0 && dv.r == 0;
      if dv.q > 0 {
        MulMonotone(1, dv.q, dv.b);
      }
    }
  }
}
