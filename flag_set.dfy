/**
 * `jewel::FlagSet<EnumT, mask, default_value>`: a set of boolean flags
 * held in an `unsigned int`, where only the flags in `mask` may be set,
 * cleared or tested.  Any other flag makes the operation throw
 * InvalidFlagException before anything changes.
 *
 * The template arguments become constant fields fixed by the
 * constructor; the flags and the value are 32-bit vectors.
 */
module FlagSet {

  /** A flag word holding exactly one flag (a power of two). */
  predicate IsSingleFlag(b: bv32) {
    b != 0 && b & (b - 1) == 0
  }

  /** Some single flag is held by both v and f. */
  ghost predicate SharesFlag(v: bv32, f: bv32) {
    exists b: bv32 :: IsSingleFlag(b) && Within(b, f) && Within(b, v)
  }

  /** Every flag of f is in m. */
  predicate Within(f: bv32, m: bv32) {
    f & m == f
  }

  /** The compile-time check of the class template, as written. */
  predicate StaticAssertAsWritten(mask: bv32, defaultValue: bv32) {
    (defaultValue & mask) != 0 || defaultValue == 0
  }

  /** What the documentation demands of `default_value`: zero, or flags that are all in `mask`. */
  predicate DefaultConsistent(mask: bv32, defaultValue: bv32) {
    defaultValue == 0 || Within(defaultValue, mask)
  }

  /** `check_flag_acceptance`: the flag is accepted iff it adds nothing to the mask. */
  function CheckFlagAcceptance(mask: bv32, flag: bv32): (accepted: bool)
    ensures accepted <==> Within(flag, mask)
  {
    AcceptanceMeansWithin(mask, flag);
    (flag | mask) == mask
  }

  lemma AcceptanceMeansWithin(mask: bv32, flag: bv32)
    ensures (flag | mask) == mask <==> flag & mask == flag
  {
    if (flag | mask) == mask {
      Absorb(flag, mask);
    } else {
      Absorb(mask, flag);
    }
  }

  lemma Absorb(x: bv32, y: bv32)
    ensures x & (x | y) == x && (x & y) | y == y
  {
  }

  class FlagSet {
    const mask: bv32
    const defaultValue: bv32
    var value: bv32

    /** Only flags in the mask are ever held. */
    ghost predicate Valid()
      reads this
    {
      Within(value, mask)
    }

    /** The default constructor: the flags of `default_value`. */
    constructor (mask: bv32, defaultValue: bv32)
      requires DefaultConsistent(mask, defaultValue)
      ensures this.mask == mask && this.defaultValue == defaultValue
      ensures value == defaultValue
      ensures Valid()
    {
      this.mask := mask;
      this.defaultValue := defaultValue;
      value := defaultValue;
    }

    /** `set`: throws iff the flag is not in the mask; otherwise ORs it in. */
    method Set(flag: bv32) returns (thrown: bool)
      requires Valid()
      modifies this
      ensures Valid()
      ensures thrown <==> !Within(flag, mask)
      ensures value == if thrown then old(value) else old(value) | flag
    {
      if !CheckFlagAcceptance(mask, flag) {
        return true;
      }
      value := value | flag;
      return false;
    }

    /** `clear`: throws iff the flag is not in the mask; otherwise removes its bits. */
    method Clear(flag: bv32) returns (thrown: bool)
      requires Valid()
      modifies this
      ensures Valid()
      ensures thrown <==> !Within(flag, mask)
      ensures value == if thrown then old(value) else old(value) & !flag
    {
      if !CheckFlagAcceptance(mask, flag) {
        return true;
      }
      value := value & !flag;
      return false;
    }

    /**
     * `test`: throws iff the flag is not in the mask; otherwise true iff
     * some single flag of `flag` is held.
     */
    method Test(flag: bv32) returns (thrown: bool, isSet: bool)
      ensures thrown <==> !Within(flag, mask)
      ensures !thrown ==> (isSet <==> SharesFlag(value, flag))
    {
      var accepted := CheckFlagAcceptance(mask, flag);
      if !accepted {
        return true, false;
      }
      var common := value & flag;
      CommonFlag(value, flag);
      return false, common != 0;
    }

    function Underlying(): (v: bv32)
      reads this
      ensures Valid() ==> Within(v, mask)
    {
      value
    }
  }

  lemma LowestFlag(x: bv32)
    requires x != 0
    ensures IsSingleFlag(x & (0 - x)) && (x & (0 - x)) & x == x & (0 - x)
  {
  }

  lemma SharedFlag(v: bv32, f: bv32, b: bv32)
    requires b != 0 && b & f == b && b & v == b
    ensures v & f != 0
  {
  }

  /** Two flag words share a bit iff they share a single flag. */
  lemma CommonFlag(v: bv32, f: bv32)
    ensures v & f != 0 <==> SharesFlag(v, f)
  {
    var x := v & f;
    if x != 0 {
      LowestFlag(x);
      var b := x & (0 - x);
      assert Within(b, f) && Within(b, v);
    }
    forall b: bv32 | IsSingleFlag(b) && Within(b, f) && Within(b, v)
      ensures v & f != 0
    {
      SharedFlag(v, f, b);
    }
  }

  /** Setting is idempotent, sets every bit of the flag and leaves the other bits alone. */
  lemma SetLaws(v: bv32, f: bv32)
    ensures (v | f) | f == v | f
    ensures (v | f) & f == f
    ensures (v | f) & !f == v & !f
  {
  }

  /** Clearing removes exactly the flag's bits. */
  lemma ClearLaws(v: bv32, f: bv32)
    ensures (v & !f) & f == 0
    ensures (v & !f) & !f == v & !f
    ensures ((v & !f) | f) == v | f
  {
  }

  /** The check as written admits a default value with a flag outside the mask. */
  lemma StaticAssertTooWeak()
    ensures StaticAssertAsWritten(1, 3) && !DefaultConsistent(1, 3)
  {
  }

  /** Every default value the documentation allows passes the check as written. */
  lemma StaticAssertAdmitsDocumented(mask: bv32, defaultValue: bv32)
    requires DefaultConsistent(mask, defaultValue)
    ensures StaticAssertAsWritten(mask, defaultValue)
  {
  }

  /** The library's test: copying `underlying()` into a fresh set with default 0 reproduces it. */
  method CopyThroughUnderlying(a: FlagSet) returns (b: FlagSet)
    requires a.Valid()
    ensures fresh(b) && b.Valid() && b.mask == a.mask
    ensures b.Underlying() == a.Underlying()
  {
    b := new FlagSet(a.mask, 0);
    var thrown := b.Set(a.Underlying());
    assert !thrown;
  }
}
