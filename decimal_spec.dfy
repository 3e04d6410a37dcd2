/**
 * The value semantics of `jewel::Decimal`.  A Decimal is a 64-bit integer
 * `intval` and a count `places` of digits after the point; it stands for
 * the number intval / 10^places.  The functions here define, on such
 * pairs, what each operation of the class computes, and the lemmas say
 * what that means for the number represented: sums and differences are
 * exact, rounding is to the nearest with ties away from zero, equality
 * ignores trailing zeros.
 */
module DecimalSpec {
  import opened Arithmetic
  import opened IntTypes
  import NumDigits

  /** `s_max_places`, the number of digits of the smallest `long long`. */
  const MaxPlaces: nat := 19

  lemma MaxPlacesIsDigitsOfMin()
    ensures NumDigits.DigitCount(Abs(LLongMin), 10) == MaxPlaces
  {
    Pow10Values();
    NumDigits.DigitCountIs(Abs(LLongMin), 10, MaxPlaces);
  }

  /** An (intval, places) pair. */
  datatype Dec = Dec(intval: int, places: nat)

  /** A pair a Decimal can hold: a `long long` and at most 19 places. */
  predicate Valid(d: Dec) {
    InLLong(d.intval) && d.places <= MaxPlaces
  }

  /** The errors the operations throw, one per exception class. */
  datatype DecimalError =
    | RangeError
    | FromStringError
    | AdditionError
    | SubtractionError
    | MultiplicationError
    | DivisionError
    | DivisionByZeroError
    | IncrementationError
    | DecrementationError
    | UnaryMinusError

  datatype Result<T> = Ok(value: T) | Err(error: DecimalError)

  // ---------------------------------------------------------------------
  // The number a pair stands for

  ghost function Value(d: Dec): real {
    PowPositive(10, d.places);
    d.intval as real / Pow10(d.places) as real
  }

  // Two pairs stand for the same number iff their cross products agree.
  lemma ValueEq(x: Dec, y: Dec)
    ensures Value(x) == Value(y) <==> x.intval * Pow10(y.places) == y.intval * Pow10(x.places)
    ensures Value(x) < Value(y) <==> x.intval * Pow10(y.places) < y.intval * Pow10(x.places)
  {
    PowPositive(10, x.places);
    PowPositive(10, y.places);
    var a, b := Pow10(x.places) as real, Pow10(y.places) as real;
    var i, j := x.intval as real, y.intval as real;
    assert Value(x) == i / a && Value(y) == j / b;
    assert i / a - j / b == (i * b - j * a) / (a * b);
    assert (x.intval * Pow10(y.places)) as real == i * b;
    assert (y.intval * Pow10(x.places)) as real == j * a;
  }

  /** Appending k zeros to intval and k places keeps the number. */
  lemma ScaleValue(d: Dec, k: nat)
    ensures Value(Dec(d.intval * Pow10(k), d.places + k)) == Value(d)
  {
    PowAdd(10, d.places, k);
    ValueEq(Dec(d.intval * Pow10(k), d.places + k), d);
    assert d.intval * Pow10(k) * Pow10(d.places) == d.intval * Pow10(d.places + k);
  }

  /** Value is linear in intval at a fixed number of places. */
  lemma ValueLinear(i: int, j: int, p: nat)
    ensures Value(Dec(i + j, p)) == Value(Dec(i, p)) + Value(Dec(j, p))
    ensures Value(Dec(i - j, p)) == Value(Dec(i, p)) - Value(Dec(j, p))
    ensures Value(Dec(-i, p)) == -Value(Dec(i, p))
  {
    PowPositive(10, p);
    var a := Pow10(p) as real;
    assert (i + j) as real / a == i as real / a + j as real / a;
    assert (i - j) as real / a == i as real / a - j as real / a;
    assert (-i) as real / a == -(i as real / a);
  }

  lemma ValueOfUnit(p: nat)
    ensures Value(Dec(Pow10(p), p)) == 1.0
  {
    PowPositive(10, p);
  }

  // ---------------------------------------------------------------------
  // rationalize

  /**
   * `rationalize(min_places)`: drop trailing zeros of intval, one place
   * at a time, while more than min_places places remain.
   */
  function Rationalized(d: Dec, minPlaces: nat): (r: Dec)
    ensures r.places <= d.places && Abs(r.intval) <= Abs(d.intval)
    ensures d.places >= minPlaces ==> r.places >= minPlaces
    ensures r.places == minPlaces || r.places == d.places || r.intval % 10 != 0
    ensures r.places > minPlaces ==> r.intval % 10 != 0
    decreases d.places
  {
    if d.places > minPlaces && d.intval % 10 == 0 then
      Rationalized(Dec(d.intval / 10, d.places - 1), minPlaces)
    else d
  }

  /** Rationalizing never changes the number. */
  lemma {:induction false} RationalizedValue(d: Dec, minPlaces: nat)
    ensures Value(Rationalized(d, minPlaces)) == Value(d)
    decreases d.places
  {
    if d.places > minPlaces && d.intval % 10 == 0 {
      var e := Dec(d.intval / 10, d.places - 1);
      RationalizedValue(e, minPlaces);
      ScaleValue(e, 1);
      assert e.intval * Pow10(1) == d.intval;
    }
  }

  /** Rationalizing a valid Decimal gives a valid Decimal. */
  lemma {:induction false} RationalizedValid(d: Dec, minPlaces: nat)
    requires Valid(d)
    ensures Valid(Rationalized(d, minPlaces))
    decreases d.places
  {
    if d.places > minPlaces && d.intval % 10 == 0 {
      RationalizedValid(Dec(d.intval / 10, d.places - 1), minPlaces);
    }
  }

  /** The shortest pair for a number: no places, or an intval not ending in 0. */
  predicate Canonical(d: Dec) {
    d.places == 0 || d.intval % 10 != 0
  }

  lemma RationalizedCanonical(d: Dec)
    ensures Canonical(Rationalized(d, 0))
  {
  }

  // A multiple of 10^k with k > 0 ends in 0.
  lemma MultipleOfPowEndsInZero(a: int, k: nat)
    requires k > 0
    ensures (a * Pow10(k)) % 10 == 0
  {
    assert a * Pow10(k) == 10 * (a * Pow10(k - 1));
  }

  /** Two canonical pairs for the same number are the same pair. */
  lemma CanonicalUnique(x: Dec, y: Dec)
    requires Canonical(x) && Canonical(y) && Value(x) == Value(y)
    ensures x == y
  {
    ValueEq(x, y);
    if x.places < y.places {
      var k := y.places - x.places;
      PowAdd(10, x.places, k);
      PowPositive(10, x.places);
      assert (x.intval * Pow10(k)) * Pow10(x.places) == y.intval * Pow10(x.places);
      MulCancel(x.intval * Pow10(k), y.intval, Pow10(x.places));
      MultipleOfPowEndsInZero(x.intval, k);
    } else if y.places < x.places {
      var k := x.places - y.places;
      PowAdd(10, y.places, k);
      PowPositive(10, y.places);
      assert (y.intval * Pow10(k)) * Pow10(y.places) == x.intval * Pow10(y.places);
      MulCancel(y.intval * Pow10(k), x.intval, Pow10(y.places));
      MultipleOfPowEndsInZero(y.intval, k);
    } else {
      PowPositive(10, x.places);
      MulCancel(x.intval, y.intval, Pow10(x.places));
    }
  }

  lemma MulCancel(a: int, b: int, c: int)
    requires c > 0 && a * c == b * c
    ensures a == b
  {
    if a < b {
      MulMonotone(a + 1, b, c);
    } else if b < a {
      MulMonotone(b + 1, a, c);
    }
  }

  /**
   * `operator==`: rationalize both and compare the pairs.  This is
   * equality of the numbers, so trailing zeros and the sign of zero do
   * not matter.
   */
  lemma EqualsIsValueEquality(x: Dec, y: Dec)
    ensures Rationalized(x, 0) == Rationalized(y, 0) <==> Value(x) == Value(y)
  {
    RationalizedValue(x, 0);
    RationalizedValue(y, 0);
    if Value(x) == Value(y) {
      CanonicalUnique(Rationalized(x, 0), Rationalized(y, 0));
    }
  }

  // ---------------------------------------------------------------------
  // Rounding and rescale

  /**
   * x / 10^k rounded to an integer, halves away from zero: the rule of
   * `rescale` when it lowers the number of places by k.
   */
  function RoundHalfAway(x: int, k: nat): int {
    PowPositive(10, k);
    var m: int := HalfAwayMagnitude(Abs(x), Pow10(k));
    if x < 0 then -m else m
  }

  /** a / t rounded to nearest, halves up. */
  function HalfAwayMagnitude(a: nat, t: int): nat
    requires t > 0
  {
    if 2 * (a % t) >= t then a / t + 1 else a / t
  }

  /**
   * RoundHalfAway gives the nearest integer, and of two equally near ones
   * the one further from zero.
   */
  lemma RoundHalfAwayNearest(x: int, k: nat)
    ensures var m := RoundHalfAway(x, k);
      2 * Abs(x - m * Pow10(k)) <= Pow10(k) &&
      (2 * Abs(x - m * Pow10(k)) == Pow10(k) ==> Abs(m * Pow10(k)) > Abs(x)) &&
      (x >= 0 ==> m >= 0) && (x <= 0 ==> m <= 0)
  {
    PowPositive(10, k);
    NearestMagnitude(Abs(x), Pow10(k));
    SignedNearest(x, Pow10(k), HalfAwayMagnitude(Abs(x), Pow10(k)), RoundHalfAway(x, k));
  }

  // Putting the sign back on a nearest magnitude.
  lemma SignedNearest(x: int, t: int, m0: int, m: int)
    requires t > 0 && m0 >= 0 && 2 * Abs(Abs(x) - m0 * t) <= t
    requires 2 * Abs(Abs(x) - m0 * t) == t ==> m0 * t > Abs(x)
    requires m == if x < 0 then -m0 else m0
    ensures 2 * Abs(x - m * t) <= t
    ensures 2 * Abs(x - m * t) == t ==> Abs(m * t) > Abs(x)
    ensures (x >= 0 ==> m >= 0) && (x <= 0 ==> m <= 0)
  {
    if x < 0 {
      assert m * t == -(m0 * t);
    }
    MulMonotone(0, m0, t);
  }

  // The same on magnitudes: a = t*q + r rounds to q or q + 1.
  lemma NearestMagnitude(a: nat, t: int)
    requires t > 0
    ensures var m0 := HalfAwayMagnitude(a, t);
      m0 >= 0 && 2 * Abs(a - m0 * t) <= t && (2 * Abs(a - m0 * t) == t ==> m0 * t > a)
  {
    var q, r := a / t, a % t;
    NearestSplit(a, t, q, r);
  }

  lemma NearestSplit(a: nat, t: int, q: int, r: int)
    requires t > 0 && a == t * q + r && 0 <= r < t
    ensures var m0 := if 2 * r >= t then q + 1 else q;
      m0 >= 0 && 2 * Abs(a - m0 * t) <= t && (2 * Abs(a - m0 * t) == t ==> m0 * t > a)
  {
    assert (q + 1) * t == q * t + t;
    if q < 0 {
      MulMonotone(q, -1, t);
    }
  }

  /** Rounding keeps a `long long` one (the magnitude never grows past it). */
  lemma RoundHalfAwayBound(x: int, k: nat)
    requires k > 0
    ensures Abs(RoundHalfAway(x, k)) <= Abs(x) / 10 + 1
  {
    PowPositive(10, k - 1);
    assert Pow10(k) == 10 * Pow10(k - 1);
    DivByMultiple(Abs(x), 10, Pow10(k - 1));
  }

  // Dividing by a multiple of c gives at most the quotient by c.
  lemma DivByMultiple(a: nat, c: int, d: int)
    requires c > 0 && d >= 1
    ensures a / (c * d) <= a / c
  {
    DivDiv(a, c, d);
    DivIsMonotoneDown(a / c, d);
  }

  lemma DivIsMonotoneDown(a: nat, b: int)
    requires b >= 1
    ensures a / b <= a
  {
    if b > 1 && a >= 1 {
      DivDecreases(a, b);
    }
  }

  /**
   * `rescale(p)`: None is the non-zero return that leaves the Decimal
   * alone; Some is the new pair.  Raising the places multiplies by a
   * power of 10, which fails beyond 19 places or on overflow; lowering
   * them rounds half away from zero.
   */
  function Rescaled(d: Dec, p: nat): (r: Option<Dec>)
    ensures r.Some? ==> r.value.places == p
  {
    if d.places == p then Some(d)
    else if d.places < p then
      if p > MaxPlaces || !InLLong(d.intval * Pow10(p - d.places)) then None
      else Some(Dec(d.intval * Pow10(p - d.places), p))
    else Some(Dec(RoundHalfAway(d.intval, d.places - p), p))
  }

  datatype Option<T> = None | Some(value: T)

  /**
   * What rescale promises: it fails only when raising the places cannot
   * be done in a `long long`; raising keeps the number; lowering gives
   * the nearest number with p places, ties away from zero; the result
   * is again a valid Decimal.
   */
  lemma RescaledMeaning(d: Dec, p: nat)
    requires Valid(d)
    ensures Rescaled(d, p).None? <==>
      d.places < p && (p > MaxPlaces || !InLLong(d.intval * Pow10(p - d.places)))
    ensures Rescaled(d, p).Some? ==> Valid(Rescaled(d, p).value) || p > MaxPlaces
    ensures d.places <= p && Rescaled(d, p).Some? ==> Value(Rescaled(d, p).value) == Value(d)
    ensures p < d.places ==>
      var m := Rescaled(d, p).value.intval;
      var t := Pow10(d.places - p);
      2 * Abs(d.intval - m * t) <= t && (2 * Abs(d.intval - m * t) == t ==> Abs(m * t) > Abs(d.intval))
  {
    if d.places < p && Rescaled(d, p).Some? {
      ScaleValue(d, p - d.places);
    } else if p < d.places {
      RoundHalfAwayNearest(d.intval, d.places - p);
      RoundHalfAwayBound(d.intval, d.places - p);
    }
  }

  /**
   * As written, raising the places computes the multiplier 10^k as a
   * `long long` with a checked cast; 10^19, needed to go from 0 places
   * to 19, does not fit, so the cast throws instead of rescale
   * returning its error code.
   */
  datatype RescaleOutcome = Done(d: Dec) | Refused | CastThrows

  function RescaledAsWritten(d: Dec, p: nat): RescaleOutcome {
    if d.places == p then Done(d)
    else if d.places < p then
      if p > MaxPlaces then Refused
      else if Pow10(p - d.places) > LLongMax then CastThrows
      else if !InLLong(d.intval * Pow10(p - d.places)) then Refused
      else Done(Dec(d.intval * Pow10(p - d.places), p))
    else Done(Dec(RoundHalfAway(d.intval, d.places - p), p))
  }

  /** Zero with no places cannot be raised to 19 places as written, though 0 * 10^19 fits. */
  lemma RescaleCastThrows()
    ensures RescaledAsWritten(Dec(0, 0), MaxPlaces) == CastThrows
    ensures Rescaled(Dec(0, 0), MaxPlaces) == Some(Dec(0, MaxPlaces))
  {
    Pow10Values();
  }

  /** Everywhere else the two agree. */
  lemma RescaledAgrees(d: Dec, p: nat)
    requires Valid(d) && !(d.places < p <= MaxPlaces && p - d.places == MaxPlaces)
    ensures RescaledAsWritten(d, p) == match Rescaled(d, p)
      case None => Refused
      case Some(e) => Done(e)
  {
    if d.places < p <= MaxPlaces {
      PowMonotone(10, p - d.places, 18);
      Pow10Values();
    }
  }

  // ---------------------------------------------------------------------
  // co_normalize, +=, -=

  /** `co_normalize`: raise the operand with fewer places to the other's places. */
  function CoNormalized(x: Dec, y: Dec): (r: Result<(Dec, Dec)>)
    ensures r.Ok? ==> r.value.0.places == r.value.1.places
  {
    if x.places == y.places then Ok((x, y))
    else if x.places < y.places then
      match Rescaled(x, y.places)
      case None => Err(RangeError)
      case Some(x') => Ok((x', y))
    else
      match Rescaled(y, x.places)
      case None => Err(RangeError)
      case Some(y') => Ok((x, y'))
  }

  /**
   * Co-normalizing keeps both numbers and brings them to the larger of
   * the two places; it fails exactly when an operand, written with that
   * many places, does not fit in a `long long`.
   */
  lemma CoNormalizedMeaning(x: Dec, y: Dec)
    requires Valid(x) && Valid(y)
    ensures var p := if x.places < y.places then y.places else x.places;
      var cx, cy := x.intval * Pow10(p - x.places), y.intval * Pow10(p - y.places);
      (CoNormalized(x, y).Ok? <==> InLLong(cx) && InLLong(cy)) &&
      (CoNormalized(x, y).Ok? ==> CoNormalized(x, y).value == (Dec(cx, p), Dec(cy, p))) &&
      Value(Dec(cx, p)) == Value(x) && Value(Dec(cy, p)) == Value(y)
  {
    var p := if x.places < y.places then y.places else x.places;
    ScaleValue(x, p - x.places);
    ScaleValue(y, p - y.places);
  }

  /** `operator+=`: co-normalize, then add the intvals if that cannot overflow. */
  function Sum(x: Dec, y: Dec): Result<Dec> {
    match CoNormalized(x, y)
    case Err(e) => Err(e)
    case Ok((a, b)) =>
      if InLLong(a.intval + b.intval) then Ok(Dec(a.intval + b.intval, a.places))
      else Err(AdditionError)
  }

  /** `operator-=`: co-normalize, then subtract the intvals if that cannot overflow. */
  function Difference(x: Dec, y: Dec): Result<Dec> {
    match CoNormalized(x, y)
    case Err(e) => Err(e)
    case Ok((a, b)) =>
      if InLLong(a.intval - b.intval) then Ok(Dec(a.intval - b.intval, a.places))
      else Err(SubtractionError)
  }

  /**
   * Addition is exact: a sum that succeeds is the sum of the numbers, kept
   * at the larger number of places; it fails with a range error when an
   * operand cannot be brought to those places, and with an addition
   * error when the exact sum does not fit.
   */
  lemma SumExact(x: Dec, y: Dec)
    requires Valid(x) && Valid(y)
    ensures var p := if x.places < y.places then y.places else x.places;
      var cx, cy := x.intval * Pow10(p - x.places), y.intval * Pow10(p - y.places);
      (Sum(x, y) == Err(RangeError) <==> !InLLong(cx) || !InLLong(cy)) &&
      (Sum(x, y) == Err(AdditionError) <==> InLLong(cx) && InLLong(cy) && !InLLong(cx + cy)) &&
      (Sum(x, y).Ok? ==>
        Valid(Sum(x, y).value) && Sum(x, y).value.places == p &&
        Value(Sum(x, y).value) == Value(x) + Value(y))
  {
    CoNormalizedMeaning(x, y);
    var p := if x.places < y.places then y.places else x.places;
    ValueLinear(x.intval * Pow10(p - x.places), y.intval * Pow10(p - y.places), p);
  }

  /** Subtraction is exact in the same way. */
  lemma DifferenceExact(x: Dec, y: Dec)
    requires Valid(x) && Valid(y)
    ensures var p := if x.places < y.places then y.places else x.places;
      var cx, cy := x.intval * Pow10(p - x.places), y.intval * Pow10(p - y.places);
      (Difference(x, y) == Err(RangeError) <==> !InLLong(cx) || !InLLong(cy)) &&
      (Difference(x, y) == Err(SubtractionError) <==> InLLong(cx) && InLLong(cy) && !InLLong(cx - cy)) &&
      (Difference(x, y).Ok? ==>
        Valid(Difference(x, y).value) && Difference(x, y).value.places == p &&
        Value(Difference(x, y).value) == Value(x) - Value(y))
  {
    CoNormalizedMeaning(x, y);
    var p := if x.places < y.places then y.places else x.places;
    ValueLinear(x.intval * Pow10(p - x.places), y.intval * Pow10(p - y.places), p);
  }

  /** Adding two non-zero numbers never gives back either of them. */
  lemma SumOfNonZeroDiffers(x: Dec, y: Dec)
    requires Valid(x) && Valid(y) && Value(x) != 0.0 && Value(y) != 0.0 && Sum(x, y).Ok?
    ensures Value(Sum(x, y).value) != Value(x) && Value(Sum(x, y).value) != Value(y)
  {
    SumExact(x, y);
  }

  // ---------------------------------------------------------------------
  // ++, --, unary minus, round

  /** `operator++`: add one unit, 10^places, to intval; the places stay. */
  function Incremented(x: Dec): Result<Dec> {
    if InLLong(x.intval + Pow10(x.places)) then Ok(Dec(x.intval + Pow10(x.places), x.places))
    else Err(IncrementationError)
  }

  /** `operator--`: subtract one unit. */
  function Decremented(x: Dec): Result<Dec> {
    if InLLong(x.intval - Pow10(x.places)) then Ok(Dec(x.intval - Pow10(x.places), x.places))
    else Err(DecrementationError)
  }

  /** ++ and -- add and subtract exactly one and keep the places. */
  lemma StepsAreOne(x: Dec)
    ensures Incremented(x).Ok? ==> Value(Incremented(x).value) == Value(x) + 1.0 && Incremented(x).value.places == x.places
    ensures Decremented(x).Ok? ==> Value(Decremented(x).value) == Value(x) - 1.0 && Decremented(x).value.places == x.places
  {
    ValueLinear(x.intval, Pow10(x.places), x.places);
    ValueOfUnit(x.places);
  }

  /**
   * As written, the unit comes from a table of 10^0 .. 10^18, so a
   * Decimal with 19 places indexes past its end.
   */
  function ImplicitDivisorAsWritten(places: nat): Option<int> {
    var table := seq(MaxPlaces, i requires 0 <= i < MaxPlaces => Pow10(i));
    if places < |table| then Some(table[places]) else None
  }

  /** -0.9, stored with 19 places, is valid and can be incremented, but the table has no unit for it. */
  lemma ImplicitDivisorOutOfTable()
    ensures Valid(Dec(-9 * Pow10(18), MaxPlaces))
    ensures ImplicitDivisorAsWritten(MaxPlaces).None?
    ensures Incremented(Dec(-9 * Pow10(18), MaxPlaces)) == Ok(Dec(Pow10(18), MaxPlaces))
  {
    Pow10Values();
  }

  /** Below 19 places the table holds the unit. */
  lemma ImplicitDivisorAgrees(places: nat)
    requires places < MaxPlaces
    ensures ImplicitDivisorAsWritten(places) == Some(Pow10(places))
  {
  }

  /** Unary minus: refused for the smallest intval, whose negation does not fit. */
  function Negated(x: Dec): Result<Dec> {
    if x.intval == LLongMin then Err(UnaryMinusError) else Ok(Dec(-x.intval, x.places))
  }

  lemma NegatedMeaning(x: Dec)
    requires Valid(x)
    ensures Negated(x).Err? <==> x.intval == LLongMin
    ensures Negated(x).Ok? ==> Valid(Negated(x).value) && Value(Negated(x).value) == -Value(x)
  {
    ValueLinear(x.intval, 0, x.places);
  }

  /** `round(x, p)`: rescale a copy, a range error if that fails. */
  function RoundedTo(x: Dec, p: nat): Result<Dec> {
    match Rescaled(x, p)
    case None => Err(RangeError)
    case Some(d) => Ok(d)
  }

  /** The rounding examples of the test suite: halves go away from zero, raising pads with zeros, 120 places are refused. */
  lemma RoundedExamples()
    ensures RoundedTo(Dec(-225, 2), 1) == Ok(Dec(-23, 1))
    ensures RoundedTo(Dec(225, 2), 1) == Ok(Dec(23, 1))
    ensures RoundedTo(Dec(-1234987, 3), 2) == Ok(Dec(-123499, 2))
    ensures RoundedTo(Dec(899999, 4), 0) == Ok(Dec(90, 0))
    ensures RoundedTo(Dec(1349, 2), 5) == Ok(Dec(1349000, 5))
    ensures RoundedTo(Dec(3, 2), 120) == Err(RangeError)
  {
    assert Pow10(1) == 10 && Pow10(2) == 100 && Pow10(3) == 1000;
    assert Pow10(4) == 10000;
  }
}
