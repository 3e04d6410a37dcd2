/**
 * Reading and writing a Decimal as text: the constructor from a string,
 * `output_aux` with `operator<<`, and `operator>>`.  The locale's
 * decimal point, thousands separator and grouping string are parameters
 * (pt, sep and gs, a group size per char of the grouping string).
 */
module DecimalIo {
  import opened Arithmetic
  import opened IntTypes
  import opened DigitStrings
  import opened DecimalSpec
  import Decimal

  // ---------------------------------------------------------------------
  // Parsing

  predicate IsSign(c: char) {
    c == '-' || c == '+'
  }

  /** The first position of c in s, or |s| when c does not occur. */
  function Find(s: seq<char>, c: char): (k: nat)
    ensures k <= |s|
    ensures forall i :: 0 <= i < k ==> s[i] != c
    ensures k < |s| ==> s[k] == c
  {
    if s == [] || s[0] == c then 0 else 1 + Find(s[1..], c)
  }

  lemma {:induction false} FindIs(s: seq<char>, c: char, k: nat)
    requires k <= |s| && (forall i :: 0 <= i < k ==> s[i] != c) && (k < |s| ==> s[k] == c)
    ensures Find(s, c) == k
  {
    if s != [] && s[0] != c {
      FindIs(s[1..], c, k - 1);
    }
  }

  /**
   * `boost::lexical_cast<long long>` on an optional sign and digits: the
   * exact value when there is at least one digit, nothing else, and the
   * value fits.
   */
  function LexicalCastLLong(t: seq<char>): Option<int> {
    var body := if t != [] && IsSign(t[0]) then t[1..] else t;
    if body == [] || !AllDigits(body) then None
    else
      var m: int := DigitsValue(body);
      var v := if t[0] == '-' then -m else m;
      if InLLong(v) then Some(v) else None
  }

  /**
   * What `Decimal(str)` makes of str when the decimal point is pt: an
   * optional sign, then whole digits up to the first pt, then fraction
   * digits.  Any other character is a from-string error; more than 19
   * fraction digits a range error; no digit at all a from-string error;
   * digits whose value does not fit a `long long` a range error.  The
   * places are the number of fraction digits, trailing zeros included.
   */
  function Parsed(s: seq<char>, pt: char): Result<Dec> {
    if s == [] then Err(FromStringError)
    else Interpreted(s[0] == '-', WholePart(Unsigned(s), pt), FractionPart(Unsigned(s), pt))
  }

  /** The string without its sign, if it starts with one. */
  function Unsigned(s: seq<char>): seq<char> {
    if s != [] && IsSign(s[0]) then s[1..] else s
  }

  /** What comes before the first point. */
  function WholePart(rest: seq<char>, pt: char): seq<char> {
    rest[..Find(rest, pt)]
  }

  /** What comes after the first point; nothing if there is none. */
  function FractionPart(rest: seq<char>, pt: char): seq<char> {
    var k := Find(rest, pt);
    if k < |rest| then rest[k + 1..] else []
  }

  /** The Decimal that whole and fraction digits denote, or why there is none. */
  function Interpreted(negative: bool, whole: seq<char>, frac: seq<char>): Result<Dec> {
    if !AllDigits(whole) || !AllDigits(frac) then Err(FromStringError)
    else if |frac| > MaxPlaces then Err(RangeError)
    else if whole + frac == [] then Err(FromStringError)
    else
      var m: int := DigitsValue(whole + frac);
      var v := if negative then -m else m;
      if InLLong(v) then Ok(Dec(v, |frac|)) else Err(RangeError)
  }

  /** What parsing accepts is a Decimal. */
  lemma ParsedValid(s: seq<char>, pt: char)
    requires Parsed(s, pt).Ok?
    ensures DecimalSpec.Valid(Parsed(s, pt).value)
  {
  }

  /**
   * A numeral: an optional sign, whole digits, and optionally pt and
   * fraction digits, at least one digit in all.  It denotes its digits
   * read as one integer, negated after '-', with as many places as it
   * has fraction digits; it fails only on too many places or on a value
   * beyond a `long long`.
   */
  lemma ParseNumeral(s: seq<char>, sign: seq<char>, whole: seq<char>, withPoint: bool, frac: seq<char>, pt: char)
    requires s == sign + whole + (if withPoint then [pt] + frac else [])
    requires |sign| <= 1 && (sign != [] ==> IsSign(sign[0]))
    requires AllDigits(whole) && AllDigits(frac) && !IsDigit(pt) && (withPoint || frac == [])
    requires whole + frac != [] && (whole == [] ==> !IsSign(pt))
    ensures var m: int := DigitsValue(whole + frac);
      var v: int := if sign == ['-'] then -m else m;
      Parsed(s, pt) ==
        if |frac| > MaxPlaces then Err(RangeError)
        else if InLLong(v) then Ok(Dec(v, |frac|))
        else Err(RangeError)
  {
    NumeralParts(s, sign, whole, withPoint, frac, pt);
    assert Parsed(s, pt) == Interpreted(sign == ['-'], whole, frac);
  }

  lemma NumeralParts(s: seq<char>, sign: seq<char>, whole: seq<char>, withPoint: bool, frac: seq<char>, pt: char)
    requires s == sign + whole + (if withPoint then [pt] + frac else [])
    requires |sign| <= 1 && (sign != [] ==> IsSign(sign[0]))
    requires AllDigits(whole) && !IsDigit(pt) && (withPoint || frac == [])
    requires whole + frac != [] && (whole == [] ==> !IsSign(pt))
    ensures s != [] && (s[0] == '-') == (sign == ['-'])
    ensures WholePart(Unsigned(s), pt) == whole && FractionPart(Unsigned(s), pt) == frac
  {
    var tail := whole + (if withPoint then [pt] + frac else []);
    assert s == sign + tail;
    NumeralSign(sign, tail);
    FindIs(tail, pt, |whole|);
    assert WholePart(tail, pt) == whole by {
      assert tail[..|whole|] == whole;
    }
    assert FractionPart(tail, pt) == frac by {
      if withPoint {
        assert tail[|whole| + 1..] == frac;
      }
    }
  }

  lemma NumeralSign(sign: seq<char>, tail: seq<char>)
    requires |sign| <= 1 && (sign != [] ==> IsSign(sign[0]))
    requires tail != [] && !IsSign(tail[0])
    ensures sign + tail != [] && Unsigned(sign + tail) == tail
    ensures ((sign + tail)[0] == '-') == (sign == ['-'])
  {
    if sign != [] {
      assert (sign + tail)[1..] == tail;
    } else {
      assert sign + tail == tail;
    }
  }

  /** Without any digit there is nothing to read: "", ".", "+.", "-". */
  lemma NoDigitRejected(s: seq<char>, pt: char)
    requires forall i :: 0 <= i < |s| ==> !IsDigit(s[i])
    ensures Parsed(s, pt) == Err(FromStringError)
  {
    if s != [] {
      var rest := Unsigned(s);
      assert forall i :: 0 <= i < |rest| ==> !IsDigit(rest[i]);
      var k := Find(rest, pt);
      if k > 0 {
        assert WholePart(rest, pt)[0] == rest[0];
      } else if k + 1 < |rest| {
        assert FractionPart(rest, pt)[0] == rest[1];
      }
    }
  }

  /** A character other than a digit, a leading sign or the first point is rejected: "0-0", "++88". */
  lemma StrayRejected(s: seq<char>, pt: char, i: nat)
    requires i < |s| && !IsDigit(s[i]) && s[i] != pt && (i == 0 ==> !IsSign(s[0]))
    ensures Parsed(s, pt) == Err(FromStringError)
  {
    var start := if IsSign(s[0]) then 1 else 0;
    assert Unsigned(s) == s[start..];
    StrayInParts(Unsigned(s), pt, i - start);
  }

  lemma StrayInParts(rest: seq<char>, pt: char, j: nat)
    requires j < |rest| && !IsDigit(rest[j]) && rest[j] != pt
    ensures !AllDigits(WholePart(rest, pt)) || !AllDigits(FractionPart(rest, pt))
  {
    var k := Find(rest, pt);
    if j < k {
      assert WholePart(rest, pt)[j] == rest[j];
    } else {
      assert FractionPart(rest, pt) == rest[k + 1..];
      assert FractionPart(rest, pt)[j - k - 1] == rest[j];
    }
  }

  /** A second point is rejected: "9.0.3". */
  lemma SecondPointRejected(s: seq<char>, pt: char, i: nat, j: nat)
    requires 0 < i < j < |s| && s[i] == pt && s[j] == pt && !IsDigit(pt)
    ensures Parsed(s, pt) == Err(FromStringError)
  {
    var start := if IsSign(s[0]) then 1 else 0;
    assert Unsigned(s) == s[start..];
    SecondPointInFraction(Unsigned(s), pt, i - start, j - start);
  }

  lemma SecondPointInFraction(rest: seq<char>, pt: char, i: nat, j: nat)
    requires i < j < |rest| && rest[i] == pt && rest[j] == pt && !IsDigit(pt)
    ensures !AllDigits(FractionPart(rest, pt))
  {
    var k := Find(rest, pt);
    assert FractionPart(rest, pt) == rest[k + 1..];
    assert FractionPart(rest, pt)[j - k - 1] == pt;
  }

  /**
   * A numeral of zeros is zero, whatever its sign, with as many places as
   * it has fraction digits.
   */
  lemma ZeroNumeral(s: seq<char>, sign: seq<char>, n: nat, withPoint: bool, k: nat, pt: char)
    requires s == sign + Zeros(n) + (if withPoint then [pt] + Zeros(k) else [])
    requires |sign| <= 1 && (sign != [] ==> IsSign(sign[0]))
    requires !IsDigit(pt) && (withPoint || k == 0) && 0 < n + k && k <= MaxPlaces && (n == 0 ==> !IsSign(pt))
    ensures Parsed(s, pt) == Ok(Dec(0, k))
  {
    ZerosJoin(n, k);
    ParseNumeral(s, sign, Zeros(n), withPoint, Zeros(k), pt);
  }

  /** A leading '+' is not kept: "+0" is zero with no places. */
  lemma ZerosJoin(n: nat, k: nat)
    ensures AllDigits(Zeros(n)) && AllDigits(Zeros(k)) && DigitsValue(Zeros(n) + Zeros(k)) == 0
  {
    ZerosValue(n);
    ZerosValue(k);
    ZerosValue(n + k);
    assert Zeros(n) + Zeros(k) == Zeros(n + k);
  }

  lemma PlusZero()
    ensures Parsed("+0", '.') == Ok(Dec(0, 0))
  {
    assert Zeros(1) == "0";
    ZeroNumeral("+0", "+", 1, false, 0, '.');
  }

  /** Nor is the sign of zero: "-0.0" is zero with one place. */
  lemma MinusZero()
    ensures Parsed("-0.0", '.') == Ok(Dec(0, 1))
  {
    assert Zeros(1) == "0";
    ZeroNumeral("-0.0", "-", 1, true, 1, '.');
  }

  /** 19 digits up to 10^18 fit. */
  lemma LargestPowerFits()
    ensures Parsed("1" + Zeros(18), '.') == Ok(Dec(Pow10(18), 0))
  {
    Pow10Values();
    OneThenZeros(18);
    ParseNumeral("1" + Zeros(18), "", "1" + Zeros(18), false, "", '.');
  }

  /** 10^19 does not fit a `long long`. */
  lemma NextPowerOutOfRange()
    ensures Parsed("1" + Zeros(19), '.') == Err(RangeError)
  {
    Pow10Values();
    OneThenZeros(19);
    ParseNumeral("1" + Zeros(19), "", "1" + Zeros(19), false, "", '.');
  }

  lemma OneThenZeros(n: nat)
    ensures AllDigits("1" + Zeros(n)) && DigitsValue("1" + Zeros(n)) == Pow10(n)
  {
    ZerosValue(n);
    DigitsValueAppend("1", Zeros(n));
    assert DigitsValue("1") == 1 by {
      assert "1"[..0] == [];
    }
  }

  /**
   * The string constructor: copy an optional sign, then digits up to the
   * point, then, past the point, the fraction digits counting them; the
   * copied characters, the point left out, go to `boost::lexical_cast`.
   * pt is not NUL: the first loop reads the terminator at the end of
   * the string before testing for the end.
   */
  method Parse(s: seq<char>, pt: char) returns (r: Result<Dec>)
    requires pt != '\0'
    ensures r == Parsed(s, pt)
  {
    if s == [] {
      return Err(FromStringError);
    }
    var rep: seq<char> := [];
    var start: nat := 0;
    if IsSign(s[0]) {
      rep := [s[0]];
      start := 1;
    }
    assert s[start..] == Unsigned(s);
    r := ParseUnsigned(s[start..], pt, rep);
  }

  /**
   * The rest of the constructor, after the sign (copied into sign): the
   * whole digits, the fraction digits, the checks, and the cast.
   */
  method ParseUnsigned(rest: seq<char>, pt: char, sign: seq<char>) returns (r: Result<Dec>)
    requires sign == [] || sign == ['-'] || sign == ['+']
    ensures r == Interpreted(sign == ['-'], WholePart(rest, pt), FractionPart(rest, pt))
  {
    var rep := sign;
    var ok, whole := CopyWhole(rest, pt);
    if !ok {
      return Err(FromStringError);
    }
    rep := rep + whole;
    var spotPosition: nat := 0;
    var frac: seq<char> := [];
    if |whole| != |rest| {
      ok, frac := CopyFraction(rest[|whole| + 1..]);
      if !ok {
        return Err(FromStringError);
      }
      spotPosition := |frac|;
      rep := rep + frac;
    }
    CopyOutcome(rest, pt, sign, whole, frac, rep);
    if spotPosition > MaxPlaces {
      return Err(RangeError);
    }
    if |rep| <= 1 && (rep == [] || rep == ['-'] || rep == ['+']) {
      return Err(FromStringError);
    }
    match LexicalCastLLong(rep)
    case None =>
      return Err(RangeError);
    case Some(v) =>
      return Ok(Dec(v, spotPosition));
  }

  /**
   * The constructor's first loop: copy digits up to the point or the end;
   * any other character fails.
   */
  method CopyWhole(rest: seq<char>, pt: char) returns (ok: bool, whole: seq<char>)
    ensures ok == AllDigits(WholePart(rest, pt))
    ensures ok ==> whole == WholePart(rest, pt)
  {
    var si: nat := 0;
    whole := [];
    while si != |rest| && rest[si] != pt
      invariant si <= |rest| && whole == rest[..si]
      invariant forall i :: 0 <= i < si ==> IsDigit(rest[i]) && rest[i] != pt
    {
      if !IsDigit(rest[si]) {
        FindIs(rest, pt, Find(rest, pt));
        assert Find(rest, pt) > si;
        assert WholePart(rest, pt)[si] == rest[si];
        return false, whole;
      }
      whole := whole + [rest[si]];
      si := si + 1;
    }
    FindIs(rest, pt, si);
    return true, whole;
  }

  /**
   * The constructor's second loop, past the point: copy digits to the end,
   * counting them; any other character fails.
   */
  method CopyFraction(frac: seq<char>) returns (ok: bool, copied: seq<char>)
    ensures ok == AllDigits(frac)
    ensures ok ==> copied == frac
  {
    var si: nat := 0;
    copied := [];
    while si != |frac|
      invariant si <= |frac| && copied == frac[..si]
      invariant forall i :: 0 <= i < si ==> IsDigit(frac[i])
    {
      if !IsDigit(frac[si]) {
        return false, copied;
      }
      copied := copied + [frac[si]];
      si := si + 1;
    }
    assert frac[..si] == frac;
    return true, copied;
  }

  /** How the constructor decides once it has copied rep and counted n fraction digits. */
  function CopyDecided(rep: seq<char>, n: nat): Result<Dec> {
    if n > MaxPlaces then Err(RangeError)
    else if |rep| <= 1 && (rep == [] || rep == ['-'] || rep == ['+']) then Err(FromStringError)
    else match LexicalCastLLong(rep)
      case None => Err(RangeError)
      case Some(v) => Ok(Dec(v, n))
  }

  // Once both parts are digits, the decision on the copy is the parse.
  lemma CopyOutcome(rest: seq<char>, pt: char, sign: seq<char>, whole: seq<char>, frac: seq<char>, rep: seq<char>)
    requires sign == [] || sign == ['-'] || sign == ['+']
    requires whole == WholePart(rest, pt) && frac == FractionPart(rest, pt)
    requires AllDigits(whole) && AllDigits(frac) && rep == sign + whole + frac
    ensures Interpreted(sign == ['-'], whole, frac) == CopyDecided(rep, |frac|)
  {
    var digits := whole + frac;
    assert AllDigits(digits);
    assert rep == sign + digits;
    CastOfDigits(sign, digits, rep);
  }

  // The copied characters: no digit among them, or the signed value of the digits.
  lemma CastOfDigits(sign: seq<char>, digits: seq<char>, rep: seq<char>)
    requires sign == [] || sign == ['-'] || sign == ['+']
    requires AllDigits(digits) && rep == sign + digits
    ensures (|rep| <= 1 && (rep == [] || rep == ['-'] || rep == ['+'])) <==> digits == []
    ensures digits != [] ==> var m: int := DigitsValue(digits);
      LexicalCastLLong(rep) == (var v: int := if sign == ['-'] then -m else m; if InLLong(v) then Some(v) else None)
  {
    if sign != [] {
      assert rep[1..] == digits;
    } else if digits != [] {
      assert rep == digits;
      assert IsDigit(rep[0]);
    }
  }

  // ---------------------------------------------------------------------
  // Printing

  /** The grouping iterator's step: to the next size, staying on the last one. */
  function Next(gs: seq<int>): (r: seq<int>)
    ensures gs != [] ==> r != []
  {
    if |gs| > 1 then gs[1..] else gs
  }

  /**
   * Whole-part digits w with thousands separators as the grouping gs
   * prescribes: counting from the point, a group of gs[0] digits, then
   * gs[1], the last size repeating, and a separator between neighbouring
   * groups.  A size of zero or less ends the grouping, except that a
   * first size of zero (first holds) puts a separator after the last
   * digit, and an empty grouping means none.
   */
  function Grouped(w: seq<char>, gs: seq<int>, sep: char, first: bool): seq<char>
    decreases |w|, first
  {
    if w == [] || gs == [] then w
    else if gs[0] == 0 && first then Grouped(w, Next(gs), sep, false) + [sep]
    else if 0 < gs[0] < |w| then Grouped(w[..|w| - gs[0]], Next(gs), sep, false) + [sep] + w[|w| - gs[0]..]
    else w
  }

  /**
   * The grouping loop of `output_aux`, which writes the whole part from
   * its right end: w is what is still to be written, gs the sizes from
   * the current one on, count the digits already in the current group.
   * A separator goes out when count reaches the group size.
   */
  function GroupedFrom(w: seq<char>, gs: seq<int>, sep: char, count: nat): seq<char>
    requires gs != []
    decreases |w|
  {
    if w == [] then []
    else if count == gs[0] then GroupedFrom(w[..|w| - 1], Next(gs), sep, 1) + [w[|w| - 1], sep]
    else GroupedFrom(w[..|w| - 1], gs, sep, count + 1) + [w[|w| - 1]]
  }

  // Within a group the loop only copies digits until the group is full.
  lemma GroupedFromCount(w: seq<char>, gs: seq<int>, sep: char, c: nat)
    requires gs != [] && c >= 1
    ensures GroupedFrom(w, gs, sep, c) ==
      if c <= gs[0] && gs[0] - c < |w| then GroupedFrom(w[..|w| - (gs[0] - c)], gs, sep, gs[0]) + w[|w| - (gs[0] - c)..]
      else w
  {
    if c <= gs[0] && gs[0] - c < |w| {
      GroupFills(w, gs, sep, c);
    } else {
      GroupUnfilled(w, gs, sep, c);
    }
  }

  // Enough digits remain: the loop copies gs[0] - c of them, then stands at a full group.
  lemma {:induction false} GroupFills(w: seq<char>, gs: seq<int>, sep: char, c: nat)
    requires gs != [] && 1 <= c <= gs[0] && gs[0] - c < |w|
    ensures GroupedFrom(w, gs, sep, c) == GroupedFrom(w[..|w| - (gs[0] - c)], gs, sep, gs[0]) + w[|w| - (gs[0] - c)..]
    decreases |w|
  {
    var g, w', x := gs[0], w[..|w| - 1], w[|w| - 1];
    if c == g {
      assert w[..|w| - 0] == w && w[|w| - 0..] == [];
    } else {
      assert GroupedFrom(w, gs, sep, c) == GroupedFrom(w', gs, sep, c + 1) + [x];
      GroupFills(w', gs, sep, c + 1);
      CountedTail(w, g - c);
    }
  }

  // Too few digits remain to fill the group: the loop only copies them.
  lemma {:induction false} GroupUnfilled(w: seq<char>, gs: seq<int>, sep: char, c: nat)
    requires gs != [] && 1 <= c && !(c <= gs[0] && gs[0] - c < |w|)
    ensures GroupedFrom(w, gs, sep, c) == w
    decreases |w|
  {
    if w != [] {
      var w', x := w[..|w| - 1], w[|w| - 1];
      assert GroupedFrom(w, gs, sep, c) == GroupedFrom(w', gs, sep, c + 1) + [x];
      GroupUnfilled(w', gs, sep, c + 1);
      assert w' + [x] == w;
    }
  }

  // Dropping the last character, then g - 1 more, is dropping g; the tails join up.
  lemma CountedTail(w: seq<char>, k: nat)
    requires 1 <= k <= |w|
    ensures var w' := w[..|w| - 1];
      w'[..|w'| - (k - 1)] == w[..|w| - k] && w'[|w'| - (k - 1)..] + [w[|w| - 1]] == w[|w| - k..]
  {
  }

  // After the first digit the loop and Grouped agree.
  lemma {:induction false} GroupedAfterFirst(w: seq<char>, gs: seq<int>, sep: char)
    requires gs != [] && w != []
    ensures Grouped(w, gs, sep, false) == GroupedFrom(w[..|w| - 1], gs, sep, 1) + [w[|w| - 1]]
    decreases |w|
  {
    var g, w', x := gs[0], w[..|w| - 1], w[|w| - 1];
    if 0 < g < |w| {
      GroupedAfterFirst(w[..|w| - g], Next(gs), sep);
      GroupedAfterGroup(w, gs, sep);
    } else {
      GroupUnfilled(w', gs, sep, 1);
      assert w' + [x] == w;
    }
  }

  // The step of GroupedAfterFirst past one full group, given the agreement on what precedes it.
  lemma GroupedAfterGroup(w: seq<char>, gs: seq<int>, sep: char)
    requires gs != [] && 0 < gs[0] < |w|
    requires var v := w[..|w| - gs[0]];
      Grouped(v, Next(gs), sep, false) == GroupedFrom(v[..|v| - 1], Next(gs), sep, 1) + [v[|v| - 1]]
    ensures Grouped(w, gs, sep, false) == GroupedFrom(w[..|w| - 1], gs, sep, 1) + [w[|w| - 1]]
  {
    var g, w', x := gs[0], w[..|w| - 1], w[|w| - 1];
    var v, t := w[..|w| - g], w'[|w'| - (g - 1)..];
    var v', y := v[..|v| - 1], v[|v| - 1];
    var a := GroupedFrom(v', Next(gs), sep, 1);
    assert Grouped(w, gs, sep, false) == (a + [y]) + [sep] + w[|w| - g..];
    assert GroupedFrom(w', gs, sep, 1) == a + [y, sep] + t by {
      GroupedFromCount(w', gs, sep, 1);
      assert w'[..|w'| - (g - 1)] == v;
    }
    assert w[|w| - g..] == t + [x];
    ConcatRegroup(a, y, sep, t, x);
  }

  lemma ConcatRegroup(a: seq<char>, y: char, sep: char, t: seq<char>, x: char)
    ensures (a + [y]) + [sep] + (t + [x]) == a + [y, sep] + t + [x]
  {
  }

  /** The loop, started with an empty group, writes Grouped(w, gs, sep, true). */
  lemma GroupedByCount(w: seq<char>, gs: seq<int>, sep: char)
    requires gs != []
    ensures GroupedFrom(w, gs, sep, 0) == Grouped(w, gs, sep, true)
  {
    if w != [] {
      if gs[0] == 0 {
        GroupedAfterFirst(w, Next(gs), sep);
      } else {
        GroupedAfterFirst(w, gs, sep);
      }
    }
  }

  // One pass of the grouping loop.
  lemma GroupStep(w: seq<char>, r: nat, gs: seq<int>, sep: char, count: nat)
    requires 0 < r <= |w| && gs != []
    ensures GroupedFrom(w[..r], gs, sep, count) ==
      if count == gs[0] then GroupedFrom(w[..r - 1], Next(gs), sep, 1) + [w[r - 1], sep]
      else GroupedFrom(w[..r - 1], gs, sep, count + 1) + [w[r - 1]]
  {
    assert w[..r][..r - 1] == w[..r - 1];
  }

  /**
   * The whole part with grouping: from the right end, a separator when
   * the current group is full (moving to the next size unless on the
   * last), then the digit.  The text is built by prepending, which is
   * writing it backwards and reversing at the end.
   */
  method WriteGrouped(w: seq<char>, gs: seq<int>, sep: char) returns (out: seq<char>)
    requires gs != []
    ensures out == Grouped(w, gs, sep, true)
  {
    var r := |w|;
    var gi := 0;
    var count: nat := 0;
    out := [];
    assert w[..r] == w && gs[gi..] == gs;
    while r != 0
      invariant 0 <= r <= |w| && 0 <= gi < |gs|
      invariant GroupedFrom(w, gs, sep, 0) == GroupedFrom(w[..r], gs[gi..], sep, count) + out
    {
      if count == gs[gi] {
        GroupLoopFull(w, gs, sep, r, gi, out);
        out := [sep] + out;
        count := 0;
        if gi != |gs| - 1 {
          gi := gi + 1;
        }
      } else {
        GroupLoopPartial(w, gs, sep, r, gi, count, out);
      }
      out := [w[r - 1]] + out;
      r := r - 1;
      count := count + 1;
    }
    assert w == w[..|w|];
    GroupedByCount(w, gs, sep);
  }

  // A pass of the grouping loop on a full group: the separator, then the digit, and on to the next size.
  lemma GroupLoopFull(w: seq<char>, gs: seq<int>, sep: char, r: nat, gi: nat, out: seq<char>)
    requires 0 < r <= |w| && gi < |gs| && gs[gi] >= 0
    ensures var gi' := if gi != |gs| - 1 then gi + 1 else gi;
      GroupedFrom(w[..r], gs[gi..], sep, gs[gi]) + out ==
        GroupedFrom(w[..r - 1], gs[gi'..], sep, 1) + ([w[r - 1]] + ([sep] + out))
  {
    GroupStep(w, r, gs[gi..], sep, gs[gi]);
    NextOfSuffix(gs, gi);
    var a := GroupedFrom(w[..r - 1], Next(gs[gi..]), sep, 1);
    assert (a + [w[r - 1], sep]) + out == a + ([w[r - 1]] + ([sep] + out));
  }

  // A pass within a group: the digit only.
  lemma GroupLoopPartial(w: seq<char>, gs: seq<int>, sep: char, r: nat, gi: nat, count: nat, out: seq<char>)
    requires 0 < r <= |w| && gi < |gs| && count != gs[gi]
    ensures GroupedFrom(w[..r], gs[gi..], sep, count) + out ==
      GroupedFrom(w[..r - 1], gs[gi..], sep, count + 1) + ([w[r - 1]] + out)
  {
    GroupStep(w, r, gs[gi..], sep, count);
    var a := GroupedFrom(w[..r - 1], gs[gi..], sep, count + 1);
    assert (a + [w[r - 1]]) + out == a + ([w[r - 1]] + out);
  }

  lemma NextOfSuffix(gs: seq<int>, gi: nat)
    requires gi < |gs|
    ensures Next(gs[gi..]) == if gi != |gs| - 1 then gs[gi + 1..] else gs[gi..]
  {
  }

  /** The digits of a magnitude before the last `places` of them. */
  function WholeDigits(m: nat, places: nat): seq<char> {
    var s := NatToDigits(m);
    if |s| > places then s[..|s| - places] else []
  }

  /** The last `places` digits of a magnitude, zero-padded on the left to `places`. */
  function FractionDigits(m: nat, places: nat): seq<char> {
    var s := NatToDigits(m);
    if |s| > places then s[|s| - places..] else Zeros(places - |s|) + s
  }

  /** Zero: "0", then the point and `places` zeros if there are places.  No sign. */
  function PrintedZero(places: nat, pt: char): seq<char> {
    ['0'] + if places > 0 then [pt] + Zeros(places) else []
  }

  /** A non-zero pair: sign, grouped whole digits or a single 0, then the point and the fraction. */
  function PrintedNonZero(d: Dec, pt: char, sep: char, gs: seq<int>): seq<char> {
    var w := WholeDigits(Abs(d.intval), d.places);
    (if d.intval < 0 then ['-'] else []) +
    (if w == [] then ['0'] else Grouped(w, gs, sep, true)) +
    (if d.places > 0 then [pt] + FractionDigits(Abs(d.intval), d.places) else [])
  }

  /** The standard stream's `long long` output with the locale's grouping. */
  function StreamInserted(x: int, sep: char, gs: seq<int>): seq<char> {
    (if x < 0 then ['-'] else []) + Grouped(NatToDigits(Abs(x)), gs, sep, false)
  }

  /**
   * What `operator<<` writes, as written: the smallest intval goes to the
   * standard stream output, which knows nothing of places.
   */
  function PrintedAsWritten(d: Dec, pt: char, sep: char, gs: seq<int>): seq<char> {
    if d.intval == 0 then PrintedZero(d.places, pt)
    else if d.intval == LLongMin then StreamInserted(d.intval, sep, gs)
    else PrintedNonZero(d, pt, sep, gs)
  }

  /** The same, with the smallest intval printed with its places like any other when it has some. */
  function Printed(d: Dec, pt: char, sep: char, gs: seq<int>): seq<char> {
    if d.intval == 0 then PrintedZero(d.places, pt)
    else if d.intval == LLongMin && d.places == 0 then StreamInserted(d.intval, sep, gs)
    else PrintedNonZero(d, pt, sep, gs)
  }

  /** The two differ only on the smallest intval with places. */
  lemma PrintedAgrees(d: Dec, pt: char, sep: char, gs: seq<int>)
    requires !(d.intval == LLongMin && d.places > 0)
    ensures PrintedAsWritten(d, pt, sep, gs) == Printed(d, pt, sep, gs)
  {
  }

  /**
   * Round trip: with no grouping, parsing what is printed gives back the
   * same intval and places, for every Decimal.
   */
  lemma ParsePrinted(d: Dec, pt: char, sep: char)
    requires DecimalSpec.Valid(d) && !IsDigit(pt)
    ensures Parsed(Printed(d, pt, sep, []), pt) == Ok(d)
  {
    if d.intval == 0 {
      PrintedZeroParses(d.places, pt);
    } else if d.intval == LLongMin && d.places == 0 {
      MinimumParses(pt, sep);
    } else {
      PrintedNonZeroParses(d, pt, sep);
    }
  }

  lemma PrintedZeroParses(places: nat, pt: char)
    requires places <= MaxPlaces && !IsDigit(pt)
    ensures Parsed(PrintedZero(places, pt), pt) == Ok(Dec(0, places))
  {
    ZerosValue(places + 1);
    assert "0" + Zeros(places) == Zeros(places + 1);
    if places > 0 {
      ParseNumeral(PrintedZero(places, pt), [], "0", true, Zeros(places), pt);
    } else {
      ParseNumeral(PrintedZero(places, pt), [], "0", false, [], pt);
    }
  }

  lemma MinimumParses(pt: char, sep: char)
    requires !IsDigit(pt)
    ensures Parsed(StreamInserted(LLongMin, sep, []), pt) == Ok(Dec(LLongMin, 0))
  {
    var s := NatToDigits(Abs(LLongMin));
    DigitsValueOfNatToDigits(Abs(LLongMin));
    assert s + [] == s;
    assert StreamInserted(LLongMin, sep, []) == ['-'] + s + [] by {
      assert Grouped(s, [], sep, false) == s;
    }
    ReadBack(StreamInserted(LLongMin, sep, []), ['-'], s, [], pt, Dec(LLongMin, 0));
  }

  lemma PrintedNonZeroParses(d: Dec, pt: char, sep: char)
    requires DecimalSpec.Valid(d) && !IsDigit(pt) && d.intval != 0
    ensures Parsed(PrintedNonZero(d, pt, sep, []), pt) == Ok(d)
  {
    var whole, frac := NonZeroText(d, pt, sep);
    var sign := if d.intval < 0 then ['-'] else [];
    ReadBack(PrintedNonZero(d, pt, sep, []), sign, whole, frac, pt, d);
  }

  // A numeral whose sign and digits are those of d's intval, and whose fraction has d's places, reads back as d.
  lemma ReadBack(text: seq<char>, sign: seq<char>, whole: seq<char>, frac: seq<char>, pt: char, d: Dec)
    requires DecimalSpec.Valid(d) && d.intval != 0 && !IsDigit(pt)
    requires sign == (if d.intval < 0 then ['-'] else [])
    requires text == sign + whole + (if d.places > 0 then [pt] + frac else [])
    requires AllDigits(whole) && AllDigits(frac) && whole != [] && |frac| == d.places
    requires DigitsValue(whole + frac) == Abs(d.intval)
    ensures Parsed(text, pt) == Ok(d)
  {
    ParseNumeral(text, sign, whole, d.places > 0, frac, pt);
  }

  // The unsigned text PrintedNonZero writes with no grouping: whole digits, then the fraction after a point.
  lemma NonZeroText(d: Dec, pt: char, sep: char) returns (whole: seq<char>, frac: seq<char>)
    requires d.intval != 0
    ensures PrintedNonZero(d, pt, sep, []) ==
      (if d.intval < 0 then ['-'] else []) + whole + (if d.places > 0 then [pt] + frac else [])
    ensures AllDigits(whole) && AllDigits(frac) && whole != [] && |frac| == d.places
    ensures DigitsValue(whole + frac) == Abs(d.intval)
  {
    var m := Abs(d.intval);
    var w := WholeDigits(m, d.places);
    whole := if w == [] then ['0'] else w;
    frac := FractionDigits(m, d.places);
    PrintedDigits(m, d.places);
    NonZeroLayout(d, pt, sep, [], w, whole, if d.places > 0 then [pt] + frac else []);
  }

  // The digits printed for a magnitude m read back as m, with as many fraction digits as places.
  lemma PrintedDigits(m: nat, places: nat)
    ensures var w := WholeDigits(m, places);
      var whole, frac := if w == [] then ['0'] else w, FractionDigits(m, places);
      AllDigits(whole) && AllDigits(frac) && |frac| == places && DigitsValue(whole + frac) == m
  {
    var s := NatToDigits(m);
    DigitsValueOfNatToDigits(m);
    if |s| > places {
      SplitDigits(s, |s| - places);
    } else {
      PaddedDigits(s, places);
    }
  }

  lemma SplitDigits(s: seq<char>, k: nat)
    requires AllDigits(s) && 0 < k <= |s|
    ensures s[..k] != [] && AllDigits(s[..k]) && AllDigits(s[k..]) && s[..k] + s[k..] == s
  {
  }

  // Too few digits for the places: a 0 before the point and zeros after it pad them.
  lemma PaddedDigits(s: seq<char>, places: nat)
    requires AllDigits(s) && |s| <= places
    ensures var frac := Zeros(places - |s|) + s;
      AllDigits(frac) && |frac| == places && DigitsValue(['0'] + frac) == DigitsValue(s)
  {
    LeadingZeros(places - |s| + 1, s);
    LeadingZeros(places - |s|, s);
    assert ['0'] + (Zeros(places - |s|) + s) == Zeros(places - |s| + 1) + s;
  }

  /** The same round trip for the printer as written, wherever the two printers agree. */
  lemma ParsePrintedAsWritten(d: Dec, pt: char, sep: char)
    requires DecimalSpec.Valid(d) && !IsDigit(pt) && !(d.intval == LLongMin && d.places > 0)
    ensures Parsed(PrintedAsWritten(d, pt, sep, []), pt) == Ok(d)
  {
    PrintedAgrees(d, pt, sep, []);
    ParsePrinted(d, pt, sep);
  }

  /**
   * As written, the smallest intval with places prints as the integer:
   * reading it back gives a Decimal with no places, a different number.
   */
  lemma MinimumWithPlacesMisprinted(p: nat, pt: char, sep: char)
    requires 0 < p <= MaxPlaces && !IsDigit(pt)
    ensures Parsed(PrintedAsWritten(Dec(LLongMin, p), pt, sep, []), pt) == Ok(Dec(LLongMin, 0))
    ensures Value(Dec(LLongMin, 0)) != Value(Dec(LLongMin, p))
  {
    ParsePrinted(Dec(LLongMin, 0), pt, sep);
    ValueEq(Dec(LLongMin, 0), Dec(LLongMin, p));
    PowMonotone(10, 0, p);
  }

  /**
   * `output_aux` and `operator<<`.  The text is written backwards and
   * reversed at the end; prepending each character does both at once.
   * Zero: the zeros, the point, then "0".  The smallest intval: the
   * standard stream output.  Otherwise: the fraction digits from the
   * right end of |intval|'s digits, zeros to fill the places, the point,
   * the whole digits (grouped when the grouping is not empty), "0" if
   * there were none, and the sign.
   */
  method Output(d: Decimal.Decimal, pt: char, sep: char, gs: seq<int>) returns (out: seq<char>)
    requires d.Valid()
    ensures out == PrintedAsWritten(d.Pair(), pt, sep, gs)
  {
    var intval, places := d.intval, d.places;
    out := [];
    if intval == 0 {
      if places > 0 {
        out := [pt] + Zeros(places);
      }
      out := ['0'] + out;
      return;
    }
    if intval == LLongMin {
      out := StreamInserted(intval, sep, gs);
      return;
    }
    out := WriteNonZero(intval, places, pt, sep, gs);
  }

  /** `output_aux` on any other intval: fraction, point, whole part, "0" if it is empty, sign. */
  method WriteNonZero(intval: int, places: nat, pt: char, sep: char, gs: seq<int>) returns (out: seq<char>)
    requires intval != 0
    ensures out == PrintedNonZero(Dec(intval, places), pt, sep, gs)
  {
    var s := NatToDigits(Abs(intval));
    var frac, r := WriteFraction(s, places);
    FractionSplit(Abs(intval), places, frac, r);
    var tail := if places != 0 then [pt] + frac else frac;
    var head;
    ghost var w := s[..r];
    if gs == [] {
      head := WriteWhole(s[..r]);
      assert head == Grouped(w, gs, sep, true);
    } else {
      head := WriteGrouped(s[..r], gs, sep);
    }
    ghost var mid := if r == 0 then ['0'] else Grouped(w, gs, sep, true);
    var digitsWritten := places + r;
    if digitsWritten == places {
      assert w == [] && head == [];
      head := ['0'] + head;
    }
    if intval < 0 {
      head := ['-'] + head;
    }
    assert head == (if intval < 0 then ['-'] else []) + mid;
    out := head + tail;
    NonZeroLayout(Dec(intval, places), pt, sep, gs, s[..r], mid, tail);
  }

  // What the fraction loops leave: the fraction digits, and the whole digits still to write.
  lemma FractionSplit(m: nat, places: nat, frac: seq<char>, r: nat)
    requires var s := NatToDigits(m);
      r == (if |s| > places then |s| - places else 0) &&
      frac == if |s| > places then s[|s| - places..] else Zeros(places - |s|) + s
    ensures frac == FractionDigits(m, places) && r <= |NatToDigits(m)|
    ensures NatToDigits(m)[..r] == WholeDigits(m, places) && (r == 0 <==> WholeDigits(m, places) == [])
  {
    assert NatToDigits(m)[..0] == [];
  }

  // PrintedNonZero as its three parts: sign, whole part, point and fraction.
  lemma NonZeroLayout(d: Dec, pt: char, sep: char, gs: seq<int>, w: seq<char>, mid: seq<char>, tail: seq<char>)
    requires w == WholeDigits(Abs(d.intval), d.places)
    requires mid == (if w == [] then ['0'] else Grouped(w, gs, sep, true))
    requires tail == if d.places > 0 then [pt] + FractionDigits(Abs(d.intval), d.places) else []
    ensures PrintedNonZero(d, pt, sep, gs) == (if d.intval < 0 then ['-'] else []) + mid + tail
  {
  }

  /**
   * The fraction loops of `output_aux`: digits of s from its right end
   * until `places` are written or s runs out, then zeros up to `places`.
   * r is how many digits of s are left for the whole part.
   */
  method WriteFraction(s: seq<char>, places: nat) returns (out: seq<char>, r: nat)
    ensures r == if |s| > places then |s| - places else 0
    ensures out == if |s| > places then s[|s| - places..] else Zeros(places - |s|) + s
  {
    r := |s|;
    out := [];
    var digitsWritten: nat := 0;
    while digitsWritten != places && r != 0
      invariant 0 <= r <= |s| && digitsWritten == |s| - r <= places
      invariant out == s[r..]
    {
      out := [s[r - 1]] + out;
      r := r - 1;
      digitsWritten := digitsWritten + 1;
    }
    ghost var copied := out;
    while digitsWritten != places
      invariant |s| - r <= digitsWritten <= places
      invariant out == Zeros(digitsWritten - (|s| - r)) + copied
    {
      out := ['0'] + out;
      digitsWritten := digitsWritten + 1;
    }
    assert s[0..] == s;
  }

  /** The whole part without grouping: its digits from the right end, unchanged. */
  method WriteWhole(w: seq<char>) returns (out: seq<char>)
    ensures out == w
  {
    out := [];
    var r := |w|;
    while r != 0
      invariant 0 <= r <= |w| && out == w[r..]
    {
      out := [w[r - 1]] + out;
      r := r - 1;
    }
    assert w[0..] == w;
  }

  /** Fraction digits are zero-padded to the places, after a "0" whole part: "0.01". */
  lemma PrintedPadded()
    ensures PrintedAsWritten(Dec(1, 2), '.', ',', []) == "0.01"
  {
    assert NatToDigits(1) == "1";
    assert FractionDigits(1, 2) == "01" by {
      assert Zeros(1) == "0";
    }
  }

  /** Trailing zeros within the places are kept, and the sign comes first: "-0.00030". */
  lemma PrintedNegativePadded()
    ensures PrintedAsWritten(Dec(-30, 5), '.', ',', []) == "-0.00030"
  {
    assert NatToDigits(30) == "30" by {
      assert NatToDigits(3) == "3";
    }
    assert FractionDigits(30, 5) == "00030" by {
      assert Zeros(3) == "000";
    }
  }

  /** Zero keeps its places: "0.000". */
  lemma PrintedZeroPlaces()
    ensures PrintedAsWritten(Dec(0, 3), '.', ',', []) == "0.000"
  {
    assert Zeros(3) == "000";
  }

  /** A German grouping "\3\3" with '.' between groups and ',' as point: "1.000". */
  lemma GroupedThousand()
    ensures PrintedAsWritten(Dec(1000, 0), ',', '.', [3, 3]) == "1.000"
  {
    assert WholeDigits(1000, 0) == "1000" by {
      assert NatToDigits(1000) == "1000" by {
        assert NatToDigits(1) == "1";
        assert NatToDigits(10) == "10";
        assert NatToDigits(100) == "100";
      }
    }
    assert Grouped("1000", [3, 3], '.', true) == "1.000" by {
      assert Grouped("1", [3], '.', false) == "1";
      assert "1000"[..1] == "1" && "1000"[1..] == "000";
    }
    NonZeroLayout(Dec(1000, 0), ',', '.', [3, 3], "1000", "1.000", []);
    assert [] + "1.000" + [] == "1.000";
  }

  /** A single short group has no separator: "900". */
  lemma GroupedShort()
    ensures PrintedAsWritten(Dec(900, 0), ',', '.', [3, 3]) == "900"
  {
    assert WholeDigits(900, 0) == "900" by {
      assert NatToDigits(900) == "900" by {
        assert NatToDigits(9) == "9";
        assert NatToDigits(90) == "90";
      }
    }
    NonZeroLayout(Dec(900, 0), ',', '.', [3, 3], "900", "900", []);
    assert [] + "900" + [] == "900";
  }

  /** German grouping with a place: "-50.800,5". */
  lemma GroupedWithPlace()
    ensures PrintedAsWritten(Dec(-508005, 1), ',', '.', [3, 3]) == "-50.800,5"
  {
    var d := Dec(-508005, 1);
    GermanDigits();
    GermanGroups();
    NonZeroLayout(d, ',', '.', [3, 3], "50800", "50.800", [','] + "5");
    assert ['-'] + "50.800" + ([','] + "5") == "-50.800,5";
  }

  lemma GermanDigits()
    ensures WholeDigits(508005, 1) == "50800" && FractionDigits(508005, 1) == "5"
  {
    assert NatToDigits(508005) == "508005" by {
      assert NatToDigits(508) == "508" by {
        assert NatToDigits(5) == "5";
        assert NatToDigits(50) == "50";
      }
      assert NatToDigits(5080) == "5080";
      assert NatToDigits(50800) == "50800";
    }
    assert "508005"[..5] == "50800" && "508005"[5..] == "5";
  }

  lemma GermanGroups()
    ensures Grouped("50800", [3, 3], '.', true) == "50.800"
  {
    assert Grouped("50", [3], '.', false) == "50";
    assert "50800"[..2] == "50" && "50800"[2..] == "800";
  }

  /** Grouping "\1\2\3" with 'w' between groups: groups of one, two, then three digits from the point. */
  lemma GroupedUneven()
    ensures Grouped("453709876", [1, 2, 3], 'w', true) == "453w709w87w6"
  {
    assert Grouped("453", [3], 'w', false) == "453";
    assert Grouped("453709", [3], 'w', false) == "453w709" by {
      assert "453709"[..3] == "453" && "453709"[3..] == "709";
    }
    assert Grouped("45370987", [2, 3], 'w', false) == "453w709w87" by {
      assert "45370987"[..6] == "453709" && "45370987"[6..] == "87";
    }
    assert "453709876"[..8] == "45370987" && "453709876"[8..] == "6";
  }

  /**
   * `operator>>`: token is the word `is >> str` read, None when the
   * stream had already failed or the read failed.  A word that does not
   * parse sets failbit and leaves d as it was; one that does is stored.
   */
  method Extract(token: Option<seq<char>>, pt: char, d: Decimal.Decimal) returns (failed: bool)
    requires pt != '\0' && d.Valid()
    modifies d
    ensures failed <==> token.None? || Parsed(token.value, pt).Err?
    ensures failed ==> d.Pair() == old(d.Pair())
    ensures !failed ==> d.Pair() == Parsed(token.value, pt).value
    ensures d.Valid()
  {
    if token.None? {
      return true;
    }
    var r := Parse(token.value, pt);
    match r
    case Err(_) =>
      return true;
    case Ok(v) =>
      ParsedValid(token.value, pt);
      d.intval, d.places := v.intval, v.places;
      return false;
  }
}
