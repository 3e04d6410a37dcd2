/**
 * `jewel::Decimal` as a class: the two fields `intval` and `places` that
 * the member functions of src/decimal.cpp update in place.  Every method
 * is proved against the value-level function of DecimalSpec or
 * DecimalMulDiv that says what it computes; where the operation throws,
 * the method returns the exception as `Some(error)` and its contract
 * says what the object then holds.
 */
module Decimal {
  import opened Arithmetic
  import opened IntTypes
  import opened DecimalSpec
  import opened DecimalMulDiv
  import opened DecimalTruncation
  import CheckedArithmetic
  import NumDigits

  /**
   * An operation that computes r: on success nothing is thrown and the
   * object holds r's value; on failure r's error is thrown and the
   * object holds what it held before (the strong guarantee).
   */
  predicate Applied(r: Result<Dec>, thrown: Option<DecimalError>, before: Dec, after: Dec) {
    match r
    case Ok(d) => thrown == None && after == d
    case Err(e) => thrown == Some(e) && after == before
  }

  /** A new Decimal returned by value: a valid one holding s's value, or s's error. */
  predicate Gives(r: Result<Decimal>, s: Result<Dec>)
    reads if r.Ok? then {r.value} else {}
  {
    match r
    case Ok(d) => s == Ok(d.Pair()) && d.Valid()
    case Err(e) => s == Err(e)
  }

  /**
   * What `operator*=` leaves when it throws: the rationalized dividend
   * when it refuses the smallest intval (the original is not restored on
   * that path), the original otherwise.
   */
  function MulFailureState(x: Dec, y: Dec): Dec {
    if Shortest(x).intval == LLongMin || Shortest(y).intval == LLongMin then Shortest(x) else x
  }

  /** Either way a failed `operator*=` leaves the same number. */
  lemma MulFailureKeepsValue(x: Dec, y: Dec)
    ensures Value(MulFailureState(x, y)) == Value(x)
  {
    RationalizedValue(x, 0);
  }

  // One step of RaiseTo: rescale by one place either multiplies by 10 or refuses and changes nothing.
  lemma RaiseStep(x: Dec, before: Dec, after: Dec, stuck: bool)
    requires x.places <= before.places < MaxPlaces && before.intval >= 0
    requires Pow10(before.places - x.places) > 0
    requires before.intval == x.intval * Pow10(before.places - x.places)
    requires Rescaled(before, before.places + 1).Some? ==> !stuck && after == Rescaled(before, before.places + 1).value
    requires Rescaled(before, before.places + 1).None? ==> stuck && after == before
    ensures stuck ==> after == before && !InLLong(before.intval * 10)
    ensures !stuck ==> after == Dec(before.intval * 10, before.places + 1)
    ensures Pow10(after.places - x.places) > 0
    ensures after.intval == x.intval * Pow10(after.places - x.places)
  {
    assert Pow10(1) == 10;
    Pow10Positive(after.places - x.places);
    if !stuck {
      ShiftPow(x.intval, before.places - x.places);
      assert Pow10(before.places - x.places + 1) == Pow10(after.places - x.places);
    }
  }

  // When raising by one more place overflows, raising to any further place overflows too.
  lemma RaiseStuck(a: int, j: nat, k: nat)
    requires a >= 0 && j < k && !InLLong(a * Pow10(j) * 10)
    ensures !InLLong(a * Pow10(k))
  {
    ShiftPow(a, j);
    PowMonotone(10, j + 1, k);
    MulMonotone(Pow10(j + 1), Pow10(k), a);
  }

  // One pass of the long-division loop: LongDivision goes on from the new state.
  lemma BringDownZero(q: nat, r: nat, b: nat, p: nat, mid: int, q': int, r': int)
    requires b > 0 && r < b && r != 0 && p < MaxPlaces && InLLong(q * 10 + (r * 10) / b)
    requires mid == q * Pow10(1) && q' == mid + (r * 10) / b && r' == (r * 10) % b
    ensures q' >= 0 && InLLong(q') && 0 <= r' < b
    ensures LongDivision(q', r', b, p + 1) == LongDivision(q, r, b, p)
  {
    assert Pow10(1) == 10;
    LongDivisionStep(q, r, b);
  }

  // A quotient that fits with a digit added fits times ten.
  lemma TimesTenFits(q: int, r: nat, b: nat)
    requires q >= 0 && b > 0 && InLLong(q * 10 + (r * 10) / b)
    ensures InLLong(q * Pow10(1))
  {
    var t: nat := r * 10;
    assert t / b >= 0;
    assert Pow10(1) == 10;
  }

  // RaiseTo's multiplier is the one `Raised` uses.
  lemma RaisedByRaiseTo(x: Dec, d: Dec)
    requires x.intval >= 0
    ensures var up := if x.places < d.places then d.places - x.places else 0;
      Raised(x, d) == x.intval * Pow10(up) && StartPlaces(x, d) == x.places + up - d.places
  {
  }

  // When `operator*=` succeeds, in terms of the rationalized operands.
  lemma ProductCases(x: Dec, y: Dec, a: Dec, b: Dec)
    requires a == Shortest(x) && b == Shortest(y)
    ensures Product(x, y).Ok? <==> a.intval != LLongMin && b.intval != LLongMin && InLLong(ProductMagnitude(a, b))
    ensures Product(x, y).Ok? ==> Product(x, y).value == Shortest(SignedProduct(a, b))
  {
  }

  // What RoundAndSign leaves, on the product of the magnitudes, is the signed product.
  lemma SignedProductIs(a: Dec, b: Dec, m: int, p: nat, negative: bool, e: Dec)
    requires m == ProductMagnitude(a, b) && p == a.places + b.places && negative == SignsDiffer(a, b)
    requires e == if p > MaxPlaces
      then Dec(SignedMag(RoundHalfAway(m, p - MaxPlaces), negative), MaxPlaces)
      else Dec(SignedMag(m, negative), p)
    ensures e == SignedProduct(a, b)
  {
  }

  /** Raising depends only on the dividend's magnitude and on the places of both. */
  lemma RaisedByPlaces(x: Dec, d: Dec, x': Dec, d': Dec)
    requires Abs(x'.intval) == Abs(x.intval) && x'.places == x.places && d'.places == d.places
    ensures Raised(x', d') == Raised(x, d) && StartPlaces(x', d') == StartPlaces(x, d)
  {
  }

  /** Past the guards, a dividend that cannot be raised to the divisor's places fails. */
  lemma NotRaisedFails(x: Dec, y: Dec, d: Dec)
    requires d == Shortest(y) && d.intval != 0 && x.intval != LLongMin && d.intval != LLongMin
    requires NumDigits.DigitCount(Abs(d.intval), 10) != MaxPlaces && !InLLong(Raised(x, d))
    ensures Quotient(x, y) == Err(DivisionError)
  {
  }

  /** Once the guards have passed, `Divided` is the long division the method carried out. */
  lemma DividedByLongDivision(x: Dec, y: Dec, d: Dec, dv: Division)
    requires d == Shortest(y) && d.intval != 0 && x.intval != LLongMin && d.intval != LLongMin
    requires NumDigits.DigitCount(Abs(d.intval), 10) != MaxPlaces && InLLong(Raised(x, d))
    requires dv.b == Abs(d.intval) && (dv.differ <==> (x.intval > 0 && d.intval < 0) || (x.intval < 0 && d.intval > 0))
    requires (dv.q, dv.places, dv.r) == StartDivision(Raised(x, d), dv.b, StartPlaces(x, d))
    ensures Divided(x, y) == Ok(dv)
  {
  }

  /** The rounded quotient, when its magnitude fits, is valid and what `Quotient` rationalizes. */
  lemma RoundedFits(x: Dec, y: Dec, dv: Division, e: Dec)
    requires Valid(x) && Valid(y) && Divided(x, y) == Ok(dv) && InLLong(RoundedMagnitude(dv)) && e == Rounded(dv)
    ensures Valid(e) && Quotient(x, y) == Ok(Shortest(e))
  {
    DividedFacts(x, y);
  }

  class Decimal {
    var intval: int
    var places: nat

    /** The pair the object holds. */
    function Pair(): Dec
      reads this
    {
      Dec(intval, places)
    }

    /** The class invariant: a `long long` intval and at most 19 places. */
    predicate Valid()
      reads this
    {
      DecimalSpec.Valid(Pair())
    }

    /** `Decimal()`: zero, with no places. */
    constructor ()
      ensures Pair() == Dec(0, 0) && Valid()
    {
      intval, places := 0, 0;
    }

    // The members of Decimal(p_intval, p_places) once the places have been checked.
    constructor Init(i: int, p: nat)
      ensures Pair() == Dec(i, p)
    {
      intval, places := i, p;
    }

    /** The copy constructor: passing a Decimal by value copies it. */
    constructor Copy(d: Decimal)
      ensures Pair() == d.Pair()
    {
      intval, places := d.intval, d.places;
    }

    /**
     * `Decimal(p_intval, p_places)`: a range error exactly when there are
     * more than 19 places.
     */
    static method Create(i: int, p: nat) returns (r: Result<Decimal>)
      requires InLLong(i) && p <= 0xFF
      ensures Gives(r, if p > MaxPlaces then Err(RangeError) else Ok(Dec(i, p)))
    {
      if p > MaxPlaces {
        return Err(RangeError);
      }
      var d := new Decimal.Init(i, p);
      return Ok(d);
    }

    /** `rationalize(min_places)`: drop trailing zeros while more than min_places places remain. */
    method Rationalize(minPlaces: nat)
      requires Valid()
      modifies this
      ensures Pair() == Rationalized(old(Pair()), minPlaces) && Valid()
    {
      RationalizedValid(Pair(), minPlaces);
      while places > minPlaces && TRem(intval, 10) == 0
        invariant Rationalized(Pair(), minPlaces) == Rationalized(old(Pair()), minPlaces)
        decreases places
      {
        TenDivides(intval);
        intval := TDiv(intval, 10);
        places := places - 1;
      }
      TenDivides(intval);
    }

    /**
     * `rescale(p_places)`: 0 and the rescaled pair, or 1 and the object
     * untouched.  Raising multiplies intval by the exact power of 10;
     * lowering truncates all but the last dropped place, then drops that
     * one and rounds half away from zero on it.
     */
    method Rescale(p: nat) returns (ret: int)
      requires InLLong(intval)
      modifies this
      ensures Rescaled(old(Pair()), p).Some? ==> ret == 0 && Pair() == Rescaled(old(Pair()), p).value
      ensures Rescaled(old(Pair()), p).None? ==> ret == 1 && Pair() == old(Pair())
      ensures InLLong(intval)
    {
      if places == p {
        return 0;
      }
      if places < p {
        if p > MaxPlaces {
          return 1;
        }
        var multiplier := Pow10(p - places);
        if !InLLong(intval * multiplier) {
          return 1;
        }
        intval := intval * multiplier;
      } else {
        TruncateAndRound(p);
        return 0;
      }
      places := p;
      return 0;
    }

    /**
     * The lowering branch of `rescale`: divide by 10 (truncating) until
     * one place is left to drop, drop it, and step away from zero if its
     * digit was 5 or more.
     */
    method TruncateAndRound(p: nat)
      requires InLLong(intval) && p < places
      modifies this
      ensures Pair() == Dec(RoundHalfAway(old(intval), old(places) - p), p) && InLLong(intval)
    {
      var isPositive := intval > 0;
      ghost var x, k := intval, places - p;
      var j: nat := places - 1;
      TDivByOne(x);
      while j != p
        invariant p <= j < places && places == old(places)
        invariant Pow10(places - 1 - j) > 0
        invariant intval == TDiv(x, Pow10(places - 1 - j))
        decreases j
      {
        TDivTenStep(x, places - 1 - j);
        intval := TDiv(intval, 10);
        j := j - 1;
      }
      ghost var y := intval;
      assert y == TDiv(x, Pow10(k - 1));
      var remainder := Abs(TRem(intval, 10)) >= 5;
      intval := TDiv(intval, 10);
      if remainder {
        if isPositive {
          intval := intval + 1;
        } else {
          intval := intval - 1;
        }
      }
      RoundFromTruncated(x, k);
      assert intval == TDiv(y, 10) + (if Abs(TRem(y, 10)) >= 5 then (if x > 0 then 1 else -1) else 0);
      RoundHalfAwayBound(x, k);
      places := p;
    }

    /**
     * `co_normalize(x, y)`: rescale the operand with fewer places up to
     * the other's; a range error, with both untouched, if that fails.
     */
    static method CoNormalize(x: Decimal, y: Decimal) returns (thrown: Option<DecimalError>)
      requires x.Valid() && y.Valid()
      modifies x, y
      ensures CoNormalized(old(x.Pair()), old(y.Pair())).Ok? ==>
        thrown == None && (x.Pair(), y.Pair()) == CoNormalized(old(x.Pair()), old(y.Pair())).value
      ensures CoNormalized(old(x.Pair()), old(y.Pair())).Err? ==>
        thrown == Some(RangeError) && x.Pair() == old(x.Pair()) && y.Pair() == old(y.Pair())
      ensures x.Valid() && y.Valid()
    {
      if x.places == y.places {
        return None;
      } else if x.places < y.places {
        var e := x.Rescale(y.places);
        if e != 0 {
          return Some(RangeError);
        }
      } else {
        var e := y.Rescale(x.places);
        if e != 0 {
          return Some(RangeError);
        }
      }
      return None;
    }

    /** `operator++`: add one unit, 10^places; an incrementation error, unchanged, on overflow. */
    method Increment() returns (thrown: Option<DecimalError>)
      requires Valid()
      modifies this
      ensures Applied(Incremented(old(Pair())), thrown, old(Pair()), Pair()) && Valid()
    {
      var unit := Pow10(places);
      if !InLLong(intval + unit) {
        return Some(IncrementationError);
      }
      intval := intval + unit;
      return None;
    }

    /** `operator--`: subtract one unit; a decrementation error, unchanged, on overflow. */
    method Decrement() returns (thrown: Option<DecimalError>)
      requires Valid()
      modifies this
      ensures Applied(Decremented(old(Pair())), thrown, old(Pair()), Pair()) && Valid()
    {
      var unit := Pow10(places);
      if !InLLong(intval - unit) {
        return Some(DecrementationError);
      }
      intval := intval - unit;
      return None;
    }

    /** Postfix `operator++`: a copy of the old value, then ++. */
    method PostIncrement() returns (ret: Decimal, thrown: Option<DecimalError>)
      requires Valid()
      modifies this
      ensures ret.Pair() == old(Pair())
      ensures Applied(Incremented(old(Pair())), thrown, old(Pair()), Pair()) && Valid()
    {
      ret := new Decimal.Copy(this);
      thrown := Increment();
    }

    /** Postfix `operator--`: a copy of the old value, then --. */
    method PostDecrement() returns (ret: Decimal, thrown: Option<DecimalError>)
      requires Valid()
      modifies this
      ensures ret.Pair() == old(Pair())
      ensures Applied(Decremented(old(Pair())), thrown, old(Pair()), Pair()) && Valid()
    {
      ret := new Decimal.Copy(this);
      thrown := Decrement();
    }

    /**
     * `operator+=`: co-normalize with a copy of rhs, then add the intvals
     * unless that overflows; on every failure the object is as before.
     */
    method AddAssign(rhs: Decimal) returns (thrown: Option<DecimalError>)
      requires Valid() && rhs.Valid()
      modifies this
      ensures Applied(Sum(old(Pair()), old(rhs.Pair())), thrown, old(Pair()), Pair()) && Valid()
    {
      var r := new Decimal.Copy(rhs);
      var orig := new Decimal.Copy(this);
      thrown := CoNormalize(this, r);
      if thrown.Some? {
        return;
      }
      if CheckedArithmetic.AdditionIsUnsafe(LongLong, intval, r.intval) {
        intval, places := orig.intval, orig.places;
        return Some(AdditionError);
      }
      intval := intval + r.intval;
    }

    /** `operator-=`: the same with subtraction. */
    method SubAssign(rhs: Decimal) returns (thrown: Option<DecimalError>)
      requires Valid() && rhs.Valid()
      modifies this
      ensures Applied(Difference(old(Pair()), old(rhs.Pair())), thrown, old(Pair()), Pair()) && Valid()
    {
      var r := new Decimal.Copy(rhs);
      var orig := new Decimal.Copy(this);
      thrown := CoNormalize(this, r);
      if thrown.Some? {
        return;
      }
      if CheckedArithmetic.SubtractionIsUnsafe(LongLong, intval, r.intval) {
        intval, places := orig.intval, orig.places;
        return Some(SubtractionError);
      }
      intval := intval - r.intval;
    }

    /**
     * The middle of `operator*=`, for rationalized operands neither of
     * which is the smallest intval: note the sign, make both absolute,
     * multiply if that fits (fits says so), add the places, round and
     * put the sign back.
     */
    method MultiplyBy(j: int, q: nat) returns (fits: bool)
      requires InLLong(intval) && InLLong(j) && intval != LLongMin && j != LLongMin
      modifies this
      ensures fits <==> InLLong(ProductMagnitude(old(Pair()), Dec(j, q)))
      ensures fits ==> Pair() == SignedProduct(old(Pair()), Dec(j, q)) && Valid()
    {
      ghost var a, b := Pair(), Dec(j, q);
      var signsDiffer := (intval < 0 && j > 0) || (intval > 0 && j < 0);
      var k := j;
      if intval < 0 {
        intval := -intval;
      }
      if k < 0 {
        k := -k;
      }
      assert intval * k == ProductMagnitude(a, b);
      fits := !CheckedArithmetic.MultiplicationIsUnsafe(LongLong, intval, k);
      if fits {
        intval := intval * k;
        places := places + q;
        ghost var m, p := intval, places;
        RoundAndSign(signsDiffer);
        SignedProductIs(a, b, m, p, signsDiffer, Pair());
      }
    }

    /**
     * The end of `operator*=` on the product of the magnitudes: rescale
     * to 19 places when there are more, then put the sign back.
     */
    method RoundAndSign(negative: bool)
      requires intval >= 0 && InLLong(intval)
      modifies this
      ensures Pair() == if old(places) > MaxPlaces
        then Dec(SignedMag(RoundHalfAway(old(intval), old(places) - MaxPlaces), negative), MaxPlaces)
        else Dec(SignedMag(old(intval), negative), old(places))
      ensures Valid()
    {
      ghost var m, p := intval, places;
      if places > MaxPlaces {
        var check := Rescale(MaxPlaces);
        RoundHalfAwayBound(m, p - MaxPlaces);
      }
      if negative {
        intval := -intval;
      }
    }

    /**
     * `operator*=`: rationalize this and a copy of rhs; refuse the
     * smallest intval; multiply the magnitudes unless that overflows and
     * add the places; round once to 19 places if there are more; put the
     * sign back; rationalize.  On overflow the original is restored; the
     * smallest-intval refusal leaves this rationalized, the same number.
     */
    method MulAssign(rhs: Decimal) returns (thrown: Option<DecimalError>)
      requires Valid() && rhs.Valid()
      modifies this
      ensures Product(old(Pair()), old(rhs.Pair())).Ok? ==>
        thrown == None && Pair() == Product(old(Pair()), old(rhs.Pair())).value
      ensures Product(old(Pair()), old(rhs.Pair())).Err? ==>
        thrown == Some(MultiplicationError) && Pair() == MulFailureState(old(Pair()), old(rhs.Pair()))
      ensures Valid()
    {
      ghost var x, y := Pair(), rhs.Pair();
      var r := new Decimal.Copy(rhs);
      var orig := new Decimal.Copy(this);
      Rationalize(0);
      r.Rationalize(0);
      if intval == LLongMin || r.intval == LLongMin {
        return Some(MultiplicationError);
      }
      ghost var a, b := Pair(), r.Pair();
      ProductCases(x, y, a, b);
      var fits := MultiplyBy(r.intval, r.places);
      if fits {
        Rationalize(0);
        return None;
      }
      assert MulFailureState(x, y) == x;
      intval, places := orig.intval, orig.places;
      return Some(MultiplicationError);
    }

    /**
     * The rescale-the-dividend loop of `operator/=`: raise a non-negative
     * intval one place at a time until it has target places, stopping
     * when one more place does not fit.  Reached says whether it got
     * there; then the pair is the dividend raised to target places.
     */
    method RaiseTo(target: nat) returns (reached: bool)
      requires InLLong(intval) && intval >= 0 && target <= MaxPlaces
      modifies this
      ensures var up := if old(places) < target then target - old(places) else 0;
        (reached <==> InLLong(old(intval) * Pow10(up))) &&
        (reached ==> Pair() == Dec(old(intval) * Pow10(up), old(places) + up))
      ensures InLLong(intval) && intval >= 0
    {
      ghost var x := Pair();
      var stuck := false;
      while places < target && !stuck
        invariant x.places <= places && (places <= target || places == x.places)
        invariant InLLong(intval) && intval >= 0
        invariant Pow10(places - x.places) > 0
        invariant intval == x.intval * Pow10(places - x.places)
        invariant stuck ==> places < target && !InLLong(intval * 10)
        decreases target - places, if stuck then 0 else 1
      {
        ghost var before := Pair();
        var e := Rescale(places + 1);
        stuck := e != 0;
        RaiseStep(x, before, Pair(), stuck);
      }
      reached := places >= target;
      if !reached {
        RaiseStuck(x.intval, places - x.places, target - x.places);
      }
    }

    /**
     * The long-division loop of `operator/=`: while a remainder is left
     * and one more place fits, bring down a zero.  The quotient, its
     * places and the remainder end as LongDivision says.
     */
    method LongDivide(b: nat, remainder: nat) returns (rem: nat)
      requires b > 0 && remainder < b && InLLong(intval) && intval >= 0 && places <= MaxPlaces
      modifies this
      ensures intval >= 0 && (intval, places, rem) == LongDivision(old(intval), remainder, b, old(places))
    {
      rem := remainder;
      while rem != 0 && places < MaxPlaces && InLLong(intval * 10 + (rem * 10) / b)
        invariant intval >= 0 && InLLong(intval) && places <= MaxPlaces && 0 <= rem < b
        invariant LongDivision(intval, rem, b, places) == LongDivision(old(intval), remainder, b, old(places))
        decreases MaxPlaces - places
      {
        ghost var q, r0, p0 := intval, rem, places;
        TimesTenFits(intval, rem, b);
        var e := Rescale(places + 1);
        assert Pair() == Dec(q * Pow10(1), p0 + 1);
        rem := rem * 10;
        var temp := rem % b;
        intval := intval + rem / b;
        rem := temp;
        BringDownZero(q, r0, b, p0, q * Pow10(1), intval, rem);
      }
    }

    /**
     * The middle of `operator/=` on magnitudes: raise to the divisor's
     * places (false when that overflows), divide by b, and carry on by
     * long division while digits fit.
     */
    method DivideMagnitude(b: nat, target: nat) returns (reached: bool, remainder: nat)
      requires b > 0 && InLLong(intval) && intval >= 0 && places <= MaxPlaces && target <= MaxPlaces
      modifies this
      ensures var x, d := Dec(old(intval), old(places)), Dec(0, target);
        (reached <==> InLLong(Raised(x, d))) &&
        (reached ==> (intval, places, remainder) == StartDivision(Raised(x, d), b, StartPlaces(x, d)))
      ensures InLLong(intval) && intval >= 0
    {
      ghost var x, d := Dec(intval, places), Dec(0, target);
      remainder := 0;
      reached := RaiseTo(target);
      RaisedByRaiseTo(x, d);
      if !reached {
        return;
      }
      assert intval == Raised(x, d) && places == StartPlaces(x, d) + target;
      DivIsMonotoneDown(intval, b);
      places := places - target;
      remainder := intval % b;
      intval := intval / b;
      remainder := LongDivide(b, remainder);
    }

    /**
     * `operator/=`: rationalize a copy of rhs; refuse a zero divisor, the
     * smallest intval on either side and a divisor of 19 digits; make
     * both absolute; raise the dividend to the divisor's places, or
     * restore and refuse; divide; long division; round half up on the
     * remainder, or restore and refuse if that overflows; put the sign
     * back; rationalize.  On every failure this is as before.
     */
    method DivAssign(rhs: Decimal) returns (thrown: Option<DecimalError>)
      requires Valid() && rhs.Valid()
      modifies this
      ensures Applied(Quotient(old(Pair()), old(rhs.Pair())), thrown, old(Pair()), Pair())
      ensures Valid()
    {
      ghost var x, y := Pair(), rhs.Pair();
      var orig := new Decimal.Copy(this);
      var r := new Decimal.Copy(rhs);
      r.Rationalize(0);
      ghost var d := r.Pair();
      if r.intval == 0 {
        assert Quotient(x, y) == Err(DivisionByZeroError);
        return Some(DivisionByZeroError);
      }
      if intval == LLongMin || r.intval == LLongMin {
        assert Quotient(x, y) == Err(DivisionError);
        return Some(DivisionError);
      }
      var digits := NumDigits.Count(LongLong, r.intval, 10);
      if digits == MaxPlaces {
        assert Quotient(x, y) == Err(DivisionError);
        return Some(DivisionError);
      }
      var diffSigns := (intval > 0 && r.intval < 0) || (intval < 0 && r.intval > 0);
      if intval < 0 {
        intval := -intval;
      }
      if r.intval < 0 {
        r.intval := -r.intval;
      }
      var b: nat := r.intval;
      ghost var magnitude := Pair();
      var reached, remainder := DivideMagnitude(b, r.places);
      RaisedByPlaces(x, d, magnitude, Dec(0, r.places));
      if !reached {
        NotRaisedFails(x, y, d);
        intval, places := orig.intval, orig.places;
        return Some(DivisionError);
      }
      ghost var dv := Division(intval, places, remainder, b, diffSigns);
      DividedByLongDivision(x, y, d, dv);
      if b - remainder <= remainder {
        if CheckedArithmetic.AdditionIsUnsafe(LongLong, intval, 1) {
          assert Quotient(x, y) == Err(DivisionError);
          intval, places := orig.intval, orig.places;
          return Some(DivisionError);
        }
        intval := intval + 1;
      }
      if diffSigns {
        intval := -intval;
      }
      RoundedFits(x, y, dv, Pair());
      Rationalize(0);
      return None;
    }

    /**
     * `operator<`: rationalize copies of both; with equal places compare
     * the intvals; otherwise truncate the longer one's intval to the
     * shorter one's places and compare, allowing equality when the
     * longer one is negative.  This is the order of the numbers.
     */
    method Less(rhs: Decimal) returns (r: bool)
      requires Valid() && rhs.Valid()
      ensures r <==> Value(Pair()) < Value(rhs.Pair())
    {
      var lhs := new Decimal.Copy(this);
      var other := new Decimal.Copy(rhs);
      lhs.Rationalize(0);
      other.Rationalize(0);
      ghost var lp, op := lhs.Pair(), other.Pair();
      assert Value(lp) == Value(Pair()) && Value(op) == Value(rhs.Pair()) by {
        RationalizedValue(Pair(), 0);
        RationalizedValue(rhs.Pair(), 0);
      }
      assert Canonical(lp) && Canonical(op) by {
        RationalizedCanonical(Pair());
        RationalizedCanonical(rhs.Pair());
      }
      if lhs.places == other.places {
        SamePlacesLess(lp, op);
        return lhs.intval < other.intval;
      }
      var leftIsLonger := lhs.places > other.places;
      var shorter := if leftIsLonger then other else lhs;
      var longer := if leftIsLonger then lhs else other;
      ghost var lo, sh := longer.Pair(), shorter.Pair();
      assert (lo, sh) == if leftIsLonger then (lp, op) else (op, lp);
      var targetPlaces := shorter.places;
      var longersIntval, longersPlaces0 := longer.intval, longer.places;
      var revised := longersIntval;
      var shortersIntval := shorter.intval;
      var longerIsNegative := revised < 0;
      var longersPlaces := longersPlaces0;
      TDivByOne(longersIntval);
      while longersPlaces != targetPlaces
        invariant targetPlaces <= longersPlaces <= longersPlaces0
        invariant Pow10(longersPlaces0 - longersPlaces) > 0
        invariant revised == TDiv(longersIntval, Pow10(longersPlaces0 - longersPlaces))
        decreases longersPlaces
      {
        TDivTenStep(longersIntval, longersPlaces0 - longersPlaces);
        revised := TDiv(revised, 10);
        longersPlaces := longersPlaces - 1;
      }
      var longerIsSmaller := if longerIsNegative then revised <= shortersIntval else revised < shortersIntval;
      LongerIsSmaller(lo, sh);
      LessByLonger(lp, op, lo, sh, leftIsLonger, longerIsSmaller);
      assert lhs != other;
      r := lhs == (if longerIsSmaller then longer else shorter);
    }

    /** `operator==`: rationalize copies of both and compare the pairs; equality of the numbers. */
    method Equals(rhs: Decimal) returns (r: bool)
      requires Valid() && rhs.Valid()
      ensures r <==> Value(Pair()) == Value(rhs.Pair())
    {
      var lhs := new Decimal.Copy(this);
      var other := new Decimal.Copy(rhs);
      lhs.Rationalize(0);
      other.Rationalize(0);
      EqualsIsValueEquality(Pair(), rhs.Pair());
      r := lhs.intval == other.intval && lhs.places == other.places;
    }
  }

  /** Binary `operator+`: += on a copy of lhs. */
  method Add(lhs: Decimal, rhs: Decimal) returns (r: Result<Decimal>)
    requires lhs.Valid() && rhs.Valid()
    ensures Gives(r, Sum(lhs.Pair(), rhs.Pair()))
  {
    var d := new Decimal.Copy(lhs);
    var thrown := d.AddAssign(rhs);
    if thrown.Some? {
      return Err(thrown.value);
    }
    return Ok(d);
  }

  /** Binary `operator-`: -= on a copy of lhs. */
  method Subtract(lhs: Decimal, rhs: Decimal) returns (r: Result<Decimal>)
    requires lhs.Valid() && rhs.Valid()
    ensures Gives(r, Difference(lhs.Pair(), rhs.Pair()))
  {
    var d := new Decimal.Copy(lhs);
    var thrown := d.SubAssign(rhs);
    if thrown.Some? {
      return Err(thrown.value);
    }
    return Ok(d);
  }

  /** Binary `operator*`: *= on a copy of lhs. */
  method Multiply(lhs: Decimal, rhs: Decimal) returns (r: Result<Decimal>)
    requires lhs.Valid() && rhs.Valid()
    ensures Gives(r, Product(lhs.Pair(), rhs.Pair()))
  {
    var d := new Decimal.Copy(lhs);
    var thrown := d.MulAssign(rhs);
    if thrown.Some? {
      return Err(thrown.value);
    }
    return Ok(d);
  }

  /** Binary `operator/`: /= on a copy of lhs. */
  method Divide(lhs: Decimal, rhs: Decimal) returns (r: Result<Decimal>)
    requires lhs.Valid() && rhs.Valid()
    ensures Gives(r, Quotient(lhs.Pair(), rhs.Pair()))
  {
    var d := new Decimal.Copy(lhs);
    var thrown := d.DivAssign(rhs);
    if thrown.Some? {
      return Err(thrown.value);
    }
    return Ok(d);
  }

  /** Unary `operator+`: the copy. */
  method UnaryPlus(d: Decimal) returns (r: Decimal)
    ensures r.Pair() == d.Pair()
  {
    r := new Decimal.Copy(d);
  }

  /** Unary `operator-`: a unary-minus error for the smallest intval, else the negated copy. */
  method Negate(d: Decimal) returns (r: Result<Decimal>)
    requires d.Valid()
    ensures Gives(r, Negated(d.Pair()))
  {
    if d.intval == LLongMin {
      return Err(UnaryMinusError);
    }
    var ret := new Decimal.Copy(d);
    ret.intval := -ret.intval;
    return Ok(ret);
  }

  /** `round(x, p)`: rescale a copy; a range error if rescale refuses.  x itself is not changed. */
  method Round(x: Decimal, p: nat) returns (r: Result<Decimal>)
    requires x.Valid()
    ensures Gives(r, RoundedTo(x.Pair(), p))
  {
    var ret := new Decimal.Copy(x);
    var e := ret.Rescale(p);
    if e != 0 {
      return Err(RangeError);
    }
    RescaledMeaning(x.Pair(), p);
    return Ok(ret);
  }

  /** `operator!=`: not ==. */
  method NotEqual(lhs: Decimal, rhs: Decimal) returns (r: bool)
    requires lhs.Valid() && rhs.Valid()
    ensures r <==> Value(lhs.Pair()) != Value(rhs.Pair())
  {
    var eq := lhs.Equals(rhs);
    r := !eq;
  }

  /** `operator>`: rhs < lhs. */
  method Greater(lhs: Decimal, rhs: Decimal) returns (r: bool)
    requires lhs.Valid() && rhs.Valid()
    ensures r <==> Value(lhs.Pair()) > Value(rhs.Pair())
  {
    r := rhs.Less(lhs);
  }

  /** `operator<=`: == or <. */
  method AtMost(lhs: Decimal, rhs: Decimal) returns (r: bool)
    requires lhs.Valid() && rhs.Valid()
    ensures r <==> Value(lhs.Pair()) <= Value(rhs.Pair())
  {
    var eq := lhs.Equals(rhs);
    var lt := lhs.Less(rhs);
    r := eq || lt;
  }

  /** `operator>=`: == or rhs < lhs. */
  method AtLeast(lhs: Decimal, rhs: Decimal) returns (r: bool)
    requires lhs.Valid() && rhs.Valid()
    ensures r <==> Value(lhs.Pair()) >= Value(rhs.Pair())
  {
    var eq := lhs.Equals(rhs);
    var gt := rhs.Less(lhs);
    r := eq || gt;
  }
}
