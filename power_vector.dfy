/**
 * `jewel::power_vector`: every order-preserving sub-vector of a vector,
 * 2^n of them for n elements.  Sub-vector number i takes v[k] exactly
 * when bit n-1-k of i is set, so the first element of v is the most
 * significant bit and the sub-vectors come in binary counting order.
 *
 * A `std::vector` is modelled as a `seq`; the argument is a `const&`,
 * so it is a value the method cannot change.
 */
module PowerVector {
  import opened Arithmetic

  /** Bit p of s is set. */
  predicate Bit(s: nat, p: nat) {
    PowPositive(2, p);
    (s / Pow(2, p)) % 2 == 1
  }

  /**
   * The positions below m that sub-vector s of an n-element vector
   * takes, in increasing order.
   */
  function ChosenBelow(n: nat, s: nat, m: nat): (ks: seq<nat>)
    requires m <= n
    ensures forall a :: 0 <= a < |ks| ==> ks[a] < m
    ensures forall a, b :: 0 <= a < b < |ks| ==> ks[a] < ks[b]
  {
    if m == 0 then []
    else ChosenBelow(n, s, m - 1) + (if Bit(s, n - m) then [m - 1] else [])
  }

  /** The elements of v at the positions ks, in that order. */
  function Pick<T>(v: seq<T>, ks: seq<nat>): (r: seq<T>)
    requires forall a :: 0 <= a < |ks| ==> ks[a] < |v|
    ensures |r| == |ks|
  {
    seq(|ks|, a requires 0 <= a < |ks| => v[ks[a]])
  }

  /** Sub-vector number s of v. */
  function Subvector<T>(v: seq<T>, s: nat): seq<T> {
    Pick(v, ChosenBelow(|v|, s, |v|))
  }

  /** The power vector: the 2^n sub-vectors, in order. */
  function PowerVectorSpec<T>(v: seq<T>): (p: seq<seq<T>>)
    ensures |p| == Pow(2, |v|)
  {
    PowPositive(2, |v|);
    seq(Pow(2, |v|), s requires 0 <= s => Subvector(v, s))
  }

  /** Position k is chosen iff bit n-1-k is set. */
  lemma {:induction false} ChosenBelowMembers(n: nat, s: nat, m: nat, k: nat)
    requires m <= n
    ensures k in ChosenBelow(n, s, m) <==> k < m && Bit(s, n - 1 - k)
  {
    if m > 0 {
      ChosenBelowMembers(n, s, m - 1, k);
    }
  }

  // s % 2j splits into s % j and j times bit "j" of s.
  lemma ModSplit(s: nat, j: int)
    requires j > 0
    ensures s % (2 * j) == s % j + j * ((s / j) % 2)
    ensures (s % (2 * j)) / j == (s / j) % 2
  {
    var q, r := s / j, s % j;
    var q2, b := q / 2, q % 2;
    assert s == j * q + r && 0 <= r < j;
    assert q == 2 * q2 + b && 0 <= b < 2;
    assert j * q == (2 * j) * q2 + j * b;
    MulMonotone(b, 1, j);
    DivUnique(s, 2 * j, q2, j * b + r);
    DivUnique(j * b + r, j, b, r);
  }

  /** Every bit below n of 2^n - 1 is set. */
  lemma AllOnes(n: nat, p: nat)
    requires p < n
    ensures Pow(2, n) - 1 >= 0 && Bit(Pow(2, n) - 1, p)
  {
    PowPositive(2, p);
    PowPositive(2, n - p - 1);
    PowAdd(2, p, n - p);
    assert Pow(2, n - p) == 2 * Pow(2, n - p - 1);
    OnesBit(Pow(2, p), Pow(2, n - p - 1));
  }

  // (a * 2c - 1) / a is 2c - 1, which is odd.
  lemma OnesBit(a: int, c: int)
    requires a > 0 && c > 0
    ensures a * (2 * c) - 1 >= 0 && (a * (2 * c) - 1) / a == 2 * c - 1 && (2 * c - 1) % 2 == 1
  {
    var b := 2 * c;
    assert a * b - 1 == a * (b - 1) + (a - 1);
    DivUnique(a * b - 1, a, b - 1, a - 1);
    DivUnique(b - 1, 2, c - 1, 1);
  }

  /** No bit of zero is set. */
  lemma NoBitOfZero(p: nat)
    ensures !Bit(0, p)
  {
    PowPositive(2, p);
  }

  /** Sub-vector 0 is empty. */
  lemma FirstIsEmpty<T>(v: seq<T>)
    ensures Subvector(v, 0) == []
  {
    var n := |v|;
    var z := ChosenBelow(n, 0, n);
    if z != [] {
      ChosenBelowMembers(n, 0, n, z[0]);
      NoBitOfZero(n - 1 - z[0]);
    }
  }

  /** Sub-vector 2^n - 1 is v itself. */
  lemma LastIsWhole<T>(v: seq<T>)
    ensures Pow(2, |v|) - 1 >= 0 && Subvector(v, Pow(2, |v|) - 1) == v
  {
    var n := |v|;
    AllChosen(n, n);
    assert Pick(v, ChosenBelow(n, Pow(2, n) - 1, n)) == v;
  }

  // With every bit set, all positions below m are chosen.
  lemma {:induction false} AllChosen(n: nat, m: nat)
    requires m <= n
    ensures Pow(2, n) - 1 >= 0
    ensures ChosenBelow(n, Pow(2, n) - 1, m) == seq(m, k requires 0 <= k => k as nat)
  {
    PowPositive(2, n);
    if m > 0 {
      AllChosen(n, m - 1);
      AllOnes(n, n - m);
    }
  }

  // The positions sub-vector s of a three-element vector takes.
  lemma ChosenOfThree(s: nat)
    ensures ChosenBelow(3, s, 3) ==
      (if (s / 4) % 2 == 1 then [0] else []) +
      (if (s / 2) % 2 == 1 then [1] else []) +
      (if s % 2 == 1 then [2] else [])
  {
    assert Pow(2, 0) == 1 && Pow(2, 1) == 2 && Pow(2, 2) == 4;
    assert ChosenBelow(3, s, 1) == if (s / 4) % 2 == 1 then [0] else [];
    assert ChosenBelow(3, s, 2) == ChosenBelow(3, s, 1) + if (s / 2) % 2 == 1 then [1] else [];
  }

  /**
   * Sub-vector s of a three-element vector [a, b, c], as in the library's
   * test on [3, 40, -8]: the bits of s, most significant first, pick a,
   * b and c, so the eight sub-vectors are [], [c], [b], [b, c], [a],
   * [a, c], [a, b] and [a, b, c].
   */
  lemma SubvectorOfThree<T>(v: seq<T>, s: nat)
    requires |v| == 3
    ensures Subvector(v, s) ==
      (if (s / 4) % 2 == 1 then [v[0]] else []) +
      (if (s / 2) % 2 == 1 then [v[1]] else []) +
      (if s % 2 == 1 then [v[2]] else [])
  {
    ChosenOfThree(s);
  }

  /**
   * `power_vector`: count subvec_num from 0 to 2^n; for each, walk j
   * down from 2^(n-1) by halving, taking v[vindex] when i / j is 1.
   */
  method PowerVector<T>(v: seq<T>) returns (ret: seq<seq<T>>)
    ensures ret == PowerVectorSpec(v)
  {
    var n := |v|;
    PowPositive(2, n);
    var pSize := Pow(2, n);
    ret := [];
    var subvecNum := 0;
    while subvecNum != pSize
      invariant 0 <= subvecNum <= pSize
      invariant |ret| == subvecNum
      invariant forall s :: 0 <= s < subvecNum ==> ret[s] == Subvector(v, s)
    {
      var retElem: seq<T> := [];
      var vindex := 0;
      var i := subvecNum;
      var j := pSize / 2;
      StartFacts(subvecNum, n);
      while j != 0
        invariant vindex <= n
        invariant j == if vindex < n then Pow(2, n - 1 - vindex) else 0
        invariant Pow(2, n - vindex) > 0 && i == subvecNum % Pow(2, n - vindex)
        invariant retElem == Pick(v, ChosenBelow(n, subvecNum, vindex))
        decreases n - vindex
      {
        StepFacts(subvecNum, n, vindex, i);
        PickStep(v, subvecNum, vindex);
        if i / j != 0 {
          retElem := retElem + [v[vindex]];
          i := i - j;
        }
        j := j / 2;
        vindex := vindex + 1;
      }
      ret := ret + [retElem];
      subvecNum := subvecNum + 1;
    }
  }

  // Before the inner loop: i is s itself and j is half of 2^n.
  lemma StartFacts(s: nat, n: nat)
    requires s < Pow(2, n)
    ensures Pow(2, n) > 0 && s == s % Pow(2, n)
    ensures Pow(2, n) / 2 == if 0 < n then Pow(2, n - 1) else 0
  {
    PowPositive(2, n);
    DivUnique(s, Pow(2, n), 0, s);
  }

  // One step of the inner loop: i / j is the bit for position x, and removing it leaves s mod j.
  lemma StepFacts(s: nat, n: nat, x: nat, i: nat)
    requires x < n && Pow(2, n - x) > 0 && i == s % Pow(2, n - x)
    ensures var j := Pow(2, n - 1 - x);
      j > 0 && (i / j == 0 || i / j == 1) && (i / j == 1 <==> Bit(s, n - 1 - x)) &&
      (if i / j != 0 then i - j else i) == s % j &&
      j / 2 == (if x + 1 < n then Pow(2, n - 1 - (x + 1)) else 0)
  {
    var j := Pow(2, n - 1 - x);
    PowPositive(2, n - 1 - x);
    assert Pow(2, n - x) == 2 * j;
    ModSplit(s, j);
    if x + 1 < n {
      assert j == 2 * Pow(2, n - 2 - x);
    }
  }

  // Position x joins the picked elements exactly when its bit is set.
  lemma PickStep<T>(v: seq<T>, s: nat, x: nat)
    requires x < |v|
    ensures Pick(v, ChosenBelow(|v|, s, x + 1)) ==
      Pick(v, ChosenBelow(|v|, s, x)) + (if Bit(s, |v| - 1 - x) then [v[x]] else [])
  {
    var ks := ChosenBelow(|v|, s, x);
    assert ChosenBelow(|v|, s, x + 1) == ks + (if Bit(s, |v| - 1 - x) then [x] else []);
  }
}
