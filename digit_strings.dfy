/**
 * Decimal digit strings: how a non-negative integer is written by a C++
 * stream in the classic locale (no grouping, no leading zeros), and the
 * value a string of digits denotes when read back.
 */
module DigitStrings {
  import opened Arithmetic
  import NumDigits

  predicate IsDigit(c: char) {
    '0' <= c <= '9'
  }

  predicate AllDigits(s: seq<char>) {
    forall i :: 0 <= i < |s| ==> IsDigit(s[i])
  }

  function DigitChar(d: nat): (c: char)
    requires d < 10
    ensures IsDigit(c)
  {
    ((d + '0' as int) as char)
  }

  function DigitValue(c: char): (d: nat)
    requires IsDigit(c)
    ensures d < 10
  {
    (c as int) - ('0' as int)
  }

  /** The shortest decimal form of n: "0" for zero, no leading zeros otherwise. */
  function NatToDigits(n: nat): (s: seq<char>)
    ensures |s| >= 1 && AllDigits(s)
  {
    if n < 10 then [DigitChar(n)] else NatToDigits(n / 10) + [DigitChar(n % 10)]
  }

  /** The value of a string of digits, read most significant first. */
  function DigitsValue(s: seq<char>): nat
    requires AllDigits(s)
  {
    if s == [] then 0 else 10 * DigitsValue(s[..|s| - 1]) + DigitValue(s[|s| - 1])
  }

  /** Reading back what NatToDigits wrote gives the number. */
  lemma {:induction false} DigitsValueOfNatToDigits(n: nat)
    ensures DigitsValue(NatToDigits(n)) == n
  {
    var s := NatToDigits(n);
    if n >= 10 {
      DigitsValueOfNatToDigits(n / 10);
      assert s[..|s| - 1] == NatToDigits(n / 10);
    }
  }

  /** NatToDigits writes exactly NumDigits.DigitCount(n, 10) digits, the first of them nonzero unless n == 0. */
  lemma {:induction false} NatToDigitsShape(n: nat)
    ensures |NatToDigits(n)| == NumDigits.DigitCount(n, 10)
    ensures n > 0 ==> NatToDigits(n)[0] != '0'
  {
    if n >= 10 {
      NatToDigitsShape(n / 10);
      DivDecreases(n, 10);
      assert n / 10 > 0;
    }
  }

  lemma NatToDigitsInjective(m: nat, n: nat)
    requires NatToDigits(m) == NatToDigits(n)
    ensures m == n
  {
    DigitsValueOfNatToDigits(m);
    DigitsValueOfNatToDigits(n);
  }

  /** The digits of a + b are those of a shifted left past the digits of b. */
  lemma {:induction false} DigitsValueAppend(a: seq<char>, b: seq<char>)
    requires AllDigits(a) && AllDigits(b)
    ensures DigitsValue(a + b) == DigitsValue(a) * Pow10(|b|) + DigitsValue(b)
    decreases |b|
  {
    if b == [] {
      assert a + b == a;
    } else {
      var b' := b[..|b| - 1];
      assert (a + b)[..|a + b| - 1] == a + b';
      assert (a + b)[|a + b| - 1] == b[|b| - 1];
      DigitsValueAppend(a, b');
      var va, vb', d, p := DigitsValue(a), DigitsValue(b'), DigitValue(b[|b| - 1]), Pow10(|b'|);
      assert Pow10(|b|) == 10 * p;
      ShiftStep(va, p, vb', d);
    }
  }

  lemma ShiftStep(a: int, p: int, b: int, d: int)
    ensures 10 * (a * p + b) + d == a * (10 * p) + (10 * b + d)
  {
  }

  /** A string of zeros has value zero. */
  lemma {:induction false} ZerosValue(n: nat)
    ensures AllDigits(Zeros(n)) && DigitsValue(Zeros(n)) == 0
  {
    if n > 0 {
      ZerosValue(n - 1);
      assert Zeros(n)[..n - 1] == Zeros(n - 1);
    }
  }

  function Zeros(n: nat): (s: seq<char>)
    ensures |s| == n
  {
    seq(n, _ => '0')
  }

  /** Leading zeros do not change the value. */
  lemma LeadingZeros(n: nat, s: seq<char>)
    requires AllDigits(s)
    ensures AllDigits(Zeros(n) + s) && DigitsValue(Zeros(n) + s) == DigitsValue(s)
  {
    ZerosValue(n);
    DigitsValueAppend(Zeros(n), s);
  }
}
