/**
 * `jewel::Version`: a software version number major.minor.patch of
 * three `unsigned` (32-bit) components, compared by recency.
 *
 * The class has no mutators (copying and assignment are the defaults),
 * so it is a value: a datatype whose fields are the getters.
 */
module Version {
  import opened DigitStrings

  type UInt32 = x: int | 0 <= x <= 0xFFFF_FFFF

  datatype Version = Version(major: UInt32, minor: UInt32, patch: UInt32)

  /**
   * The three components packed into one number, most significant first:
   * an independent reference for the lexicographic order.
   */
  function Key(v: Version): nat {
    v.major * 0x1_0000_0000_0000_0000 + v.minor * 0x1_0000_0000 + v.patch
  }

  lemma KeyInjective(v: Version, w: Version)
    ensures Key(v) == Key(w) <==> v == w
  {
    if Key(v) == Key(w) {
      KeyOrder(v, w);
      KeyOrder(w, v);
    }
  }

  // Comparing keys compares the components lexicographically.
  lemma KeyOrder(v: Version, w: Version)
    ensures v.major < w.major ==> Key(v) < Key(w)
    ensures v.major == w.major && v.minor < w.minor ==> Key(v) < Key(w)
    ensures v.major == w.major && v.minor == w.minor ==> (Key(v) < Key(w) <==> v.patch < w.patch)
  {
    var lo := 0x1_0000_0000;
    var hi := 0x1_0000_0000_0000_0000;
    assert v.minor * lo + v.patch < hi && w.minor * lo + w.patch < hi;
    if v.major < w.major {
      assert v.major * hi + hi <= w.major * hi;
    }
    if v.minor < w.minor {
      assert v.minor * lo + lo <= w.minor * lo;
    }
  }

  /** `operator==`: all three components equal. */
  function Equal(lhs: Version, rhs: Version): (r: bool)
    ensures r <==> lhs == rhs
    ensures r <==> Key(lhs) == Key(rhs)
  {
    KeyInjective(lhs, rhs);
    lhs.major == rhs.major && lhs.minor == rhs.minor && lhs.patch == rhs.patch
  }

  function NotEqual(lhs: Version, rhs: Version): (r: bool)
    ensures r <==> lhs != rhs
  {
    !Equal(lhs, rhs)
  }

  /** `operator<`: true iff rhs is more recent than lhs. */
  function Less(lhs: Version, rhs: Version): (r: bool)
    ensures r <==> Key(lhs) < Key(rhs)
  {
    KeyOrder(lhs, rhs);
    KeyOrder(rhs, lhs);
    if lhs.major < rhs.major then true
    else if lhs.major > rhs.major then false
    else if lhs.minor < rhs.minor then true
    else if lhs.minor > rhs.minor then false
    else if lhs.patch < rhs.patch then true
    else false
  }

  function LessOrEqual(lhs: Version, rhs: Version): (r: bool)
    ensures r <==> Key(lhs) <= Key(rhs)
  {
    Less(lhs, rhs) || Equal(lhs, rhs)
  }

  function Greater(lhs: Version, rhs: Version): (r: bool)
    ensures r <==> Key(lhs) > Key(rhs)
  {
    Less(rhs, lhs)
  }

  function GreaterOrEqual(lhs: Version, rhs: Version): (r: bool)
    ensures r <==> Key(lhs) >= Key(rhs)
  {
    Less(rhs, lhs) || Equal(rhs, lhs)
  }

  /** Exactly one of a < b, a == b, b < a holds. */
  lemma Trichotomy(a: Version, b: Version)
    ensures (Less(a, b) && !Equal(a, b) && !Less(b, a))
         || (!Less(a, b) && Equal(a, b) && !Less(b, a))
         || (!Less(a, b) && !Equal(a, b) && Less(b, a))
  {
  }

  lemma Transitive(a: Version, b: Version, c: Version)
    requires Less(a, b) && Less(b, c)
    ensures Less(a, c)
  {
  }

  /** `operator<<`: "major.minor.patch" in decimal. */
  function ToString(v: Version): (s: string)
    ensures |s| >= 5
  {
    NatToDigits(v.major) + "." + NatToDigits(v.minor) + "." + NatToDigits(v.patch)
  }

  // A prefix without dots ends at the first dot.
  lemma SplitAtDot(a: string, b: string, c: string, d: string)
    requires AllDigits(a) && AllDigits(c) && a + "." + b == c + "." + d
    ensures a == c && b == d
  {
    var s := a + "." + b;
    assert s[|a|] == '.' && (c + "." + d)[|c|] == '.';
    assert |a| == |c|;
    assert a == s[..|a|] == c;
    assert b == s[|a| + 1..] == d;
  }

  /** The output determines the version. */
  lemma ToStringInjective(v: Version, w: Version)
    requires ToString(v) == ToString(w)
    ensures v == w
  {
    var a, b, c := NatToDigits(v.major), NatToDigits(v.minor), NatToDigits(v.patch);
    var a', b', c' := NatToDigits(w.major), NatToDigits(w.minor), NatToDigits(w.patch);
    assert ToString(v) == a + "." + (b + "." + c);
    assert ToString(w) == a' + "." + (b' + "." + c');
    SplitAtDot(a, b + "." + c, a', b' + "." + c');
    SplitAtDot(b, c, b', c');
    NatToDigitsInjective(v.major, w.major);
    NatToDigitsInjective(v.minor, w.minor);
    NatToDigitsInjective(v.patch, w.patch);
  }

  lemma OutputExample()
    ensures ToString(Version(12, 0, 306)) == "12.0.306"
  {
    assert NatToDigits(12) == "12";
    assert NatToDigits(306) == NatToDigits(30) + "6" == "306";
  }
}
