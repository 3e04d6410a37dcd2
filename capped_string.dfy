/**
 * `jewel::CappedString<N>`: a string of at most N chars kept in a
 * fixed buffer of N + 1 chars, NUL-terminated at its length, with a flag
 * that records whether something did not fit.
 *
 * The buffer is an array allocated once by the constructors; the length
 * and the flag are fields the operations update in place.  `Contents()`
 * is the string the object holds, and the value-level functions below
 * (`CString`, `Capped`, `Resized`) say what each operation makes of it.
 */
module CappedString {
  import SmallestSufficientUnsignedType

  const NUL: char := '\0'

  function Min(a: nat, b: nat): nat {
    if a <= b then a else b
  }

  /** What a `char const*` denotes: the characters before the first NUL, or all of s if it has none. */
  function CString(s: seq<char>): (c: seq<char>)
    ensures c <= s && NUL !in c
    ensures |c| < |s| ==> s[|c|] == NUL
  {
    if s == [] || s[0] == NUL then [] else [s[0]] + CString(s[1..])
  }

  /** A NUL-free prefix of s that ends at a NUL or at the end of s is CString(s). */
  lemma {:induction false} CStringUnique(s: seq<char>, c: seq<char>)
    requires c <= s && NUL !in c
    requires |c| < |s| ==> s[|c|] == NUL
    ensures CString(s) == c
  {
    if s != [] && s[0] != NUL {
      assert c != [] && c[0] == s[0];
      CStringUnique(s[1..], c[1..]);
    }
  }

  /** Text after a NUL is never seen. */
  lemma CStringStopsAtNul(s: seq<char>, m: nat)
    requires m < |s| && s[m] == NUL
    ensures CString(s) == CString(s[..m])
  {
    var c := CString(s[..m]);
    assert c <= s;
    CStringUnique(s, c);
  }

  /** The first n chars of s, or all of s if it is shorter. */
  function Capped(s: seq<char>, n: nat): (r: seq<char>)
    ensures r <= s && |r| == Min(|s|, n)
  {
    if |s| <= n then s else s[..n]
  }

  /** `std::string::resize` to length m: cut, or pad with NULs. */
  function Resized(c: seq<char>, m: nat): (r: seq<char>)
    ensures |r| == m
    ensures forall k :: 0 <= k < Min(m, |c|) ==> r[k] == c[k]
    ensures forall k :: |c| <= k < m ==> r[k] == NUL
  {
    if m <= |c| then c[..m] else c + seq(m - |c|, _ => NUL)
  }

  /** Capping after each append is the same as capping once at the end. */
  lemma CappedAppend(a: seq<char>, b: seq<char>, c: seq<char>, n: nat)
    ensures Capped(Capped(a + b, n) + c, n) == Capped(a + b + c, n)
  {
    if |a + b| > n {
      assert (a + b)[..n] + c == (a + b + c)[..n] + c;
      assert ((a + b + c)[..n] + c)[..n] == (a + b + c)[..n];
    }
  }

  /** What the copy loop of `operator+=` leaves in front of the new length. */
  lemma AppendContents(c: seq<char>, r: seq<char>, extra: nat, n: nat, d: seq<char>)
    requires extra <= |r| && |c| + extra == Min(|c| + |r|, n) && |c| + extra <= |d|
    requires d[..|c|] == c && d[|c|..|c| + extra] == r[..extra]
    ensures d[..|c| + extra] == Capped(c + r, n)
  {
    assert d[..|c| + extra] == d[..|c|] + d[|c|..|c| + extra];
    assert (c + r)[..|c| + extra] == c + r[..extra];
  }

  /** Exact sums below the modulus are not reduced. */
  lemma ModSmall(x: nat, m: nat)
    requires x < m
    ensures x % m == x
  {
  }

  /** The capacity test in the library's tests: capacity 5, "yep" + "hello" is "yephe". */
  lemma AppendExample()
    ensures Capped("yep" + "hello", 5) == "yephe"
  {
  }

  /** A leading NUL makes the empty string: "\0abc" is not longer than any capacity. */
  lemma LeadingNulExample()
    ensures CString("\0abc") == []
  {
  }

  /** The largest value of `size_type`: the smallest unsigned type that holds N + 1. */
  function SizeTypeMax(n: nat): (m: nat)
    requires n + 1 <= SmallestSufficientUnsignedType.SizeMax
    ensures m >= n + 1
  {
    SmallestSufficientUnsignedType.MaxOf(SmallestSufficientUnsignedType.SmallestFor(n + 1))
  }

  /**
   * The lengths `operator+=` computes, as written: `new_length` and
   * `num_extra_elements` are `size_type`, so both are reduced modulo
   * its range before use.
   */
  function AppendExtentAsWritten(n: nat, len: nat, rlen: nat): (r: (nat, nat))
    requires n + 1 <= SmallestSufficientUnsignedType.SizeMax
    requires len <= n && rlen <= n
    ensures r.0 <= SizeTypeMax(n) && r.1 <= SizeTypeMax(n)
  {
    var m := SizeTypeMax(n) + 1;
    var sum := (len + rlen) % m;
    var newLength := if sum > n then n else sum;
    (newLength, (newLength - len) % m)
  }

  /** The same lengths in exact arithmetic: the copy stays inside the buffer. */
  function AppendExtent(n: nat, len: nat, rlen: nat): (r: (nat, nat))
    requires len <= n && rlen <= n
    ensures r.0 == Min(len + rlen, n) && len + r.1 == r.0 <= n
  {
    var newLength := if len + rlen > n then n else len + rlen;
    (newLength, newLength - len)
  }

  /** Without wrap-around the two agree. */
  lemma AppendExtentAgrees(n: nat, len: nat, rlen: nat)
    requires n + 1 <= SmallestSufficientUnsignedType.SizeMax
    requires len <= n && rlen <= n && len + rlen <= SizeTypeMax(n)
    ensures AppendExtentAsWritten(n, len, rlen) == AppendExtent(n, len, rlen)
  {
    var m := SizeTypeMax(n) + 1;
    ModSmall(len + rlen, m);
    var newLength := if len + rlen > n then n else len + rlen;
    ModSmall(newLength - len, m);
  }

  /**
   * `CappedString<200>` has an `unsigned char` size_type.  Appending 150
   * chars to 150 chars wraps 300 to 44, so the copy of 150 chars starts at
   * position 150 and runs past the 201-char buffer.
   */
  lemma AppendExtentWraps()
    ensures SizeTypeMax(200) == 0xFF
    ensures AppendExtentAsWritten(200, 150, 150) == (44, 150)
    ensures 150 + AppendExtentAsWritten(200, 150, 150).1 > 200 + 1
  {
    UCharSizeType();
    assert (150 + 150) % 256 == 44;
    assert (44 - 150) % 256 == 150;
  }

  /** A capacity of 200 fits `unsigned char`. */
  lemma UCharSizeType()
    ensures SizeTypeMax(200) == 0xFF
  {
    assert SmallestSufficientUnsignedType.SmallestFor(201) == SmallestSufficientUnsignedType.UChar;
  }

  class CappedString {
    const N: nat
    const data: array<char>
    var len: nat
    var truncated: bool

    /** size() <= capacity() == N, and the char at index size() is NUL. */
    ghost predicate Valid()
      reads this, data
    {
      data.Length == N + 1 && len <= N && data[len] == NUL
    }

    /** The string held: the first size() chars of the buffer. */
    function Contents(): (s: seq<char>)
      reads this, data
      requires Valid()
      ensures |s| == len <= N
    {
      data[..len]
    }

    /** The default constructor: empty and not truncated. */
    constructor Empty(n: nat)
      ensures N == n && Valid() && fresh(data)
      ensures Contents() == [] && !truncated
    {
      N := n;
      var a := new char[n + 1];
      a[0] := NUL;
      data := a;
      len := 0;
      truncated := false;
    }

    /**
     * The `char const*` constructor: copies up to the first NUL, at most
     * N chars; reaching a non-NUL char at index N truncates.  The source
     * must be NUL-terminated or have more than N chars.
     */
    constructor FromCString(n: nat, s: seq<char>)
      requires NUL in s || |s| > n
      ensures N == n && Valid() && fresh(data)
      ensures Contents() == Capped(CString(s), n)
      ensures truncated <==> |CString(s)| > n
    {
      N := n;
      var a := new char[n + 1];
      var i := 0;
      var t := false;
      while true
        invariant i <= n && i < |s|
        invariant NUL in s ==> NUL in s[i..]
        invariant forall k :: 0 <= k < i ==> s[k] != NUL
        invariant a[..i] == s[..i]
        decreases n - i
      {
        a[i] := s[i];
        if a[i] == NUL {
          break;
        }
        if i == n {
          a[n] := NUL;
          t := true;
          break;
        }
        assert s[i..] == [s[i]] + s[i + 1..];
        i := i + 1;
      }
      ghost var c := CString(s);
      if t {
        assert |c| > n && c[..n] == s[..n];
      } else {
        assert NUL !in s[..i];
        CStringUnique(s, s[..i]);
      }
      data := a;
      len := i;
      truncated := t;
    }

    /** The `std::string` constructor: the first min(size, N) chars, embedded NULs included. */
    constructor FromString(n: nat, s: seq<char>)
      ensures N == n && Valid() && fresh(data)
      ensures Contents() == Capped(s, n)
      ensures truncated <==> |s| > n
    {
      N := n;
      var m := if |s| > n then n else |s|;
      var a := new char[n + 1];
      for i := 0 to m
        invariant a[..i] == s[..i]
      {
        a[i] := s[i];
      }
      a[m] := NUL;
      assert a[..m] == s[..m];
      data := a;
      len := m;
      truncated := |s| > n;
    }

    /** The copy constructor (`unchecked_assign` into a new buffer). */
    constructor Copy(rhs: CappedString)
      requires rhs.Valid()
      ensures N == rhs.N && Valid() && fresh(data)
      ensures Contents() == rhs.Contents() && truncated == rhs.truncated
    {
      N := rhs.N;
      var a := new char[rhs.N + 1];
      for i := 0 to rhs.len + 1
        invariant a[..i] == rhs.data[..i]
      {
        a[i] := rhs.data[i];
      }
      assert a[..rhs.len] == rhs.data[..rhs.len];
      data := a;
      len := rhs.len;
      truncated := rhs.truncated;
    }

    /** `operator=`: self-assignment does nothing; otherwise `unchecked_assign`. */
    method Assign(rhs: CappedString)
      requires Valid() && rhs.Valid() && rhs.N == N
      requires rhs == this || rhs.data != data
      modifies this, data
      ensures Valid()
      ensures Contents() == old(rhs.Contents()) && truncated == old(rhs.truncated)
    {
      if rhs != this {
        for i := 0 to rhs.len + 1
          invariant data[..i] == rhs.data[..i]
        {
          data[i] := rhs.data[i];
        }
        assert data[..rhs.len] == rhs.data[..rhs.len];
        truncated := rhs.truncated;
        len := rhs.len;
      }
    }

    /** `operator==`: same length and same chars; the truncation flag is ignored. */
    method Equals(rhs: CappedString) returns (r: bool)
      requires Valid() && rhs.Valid()
      ensures r <==> Contents() == rhs.Contents()
    {
      if len != rhs.len {
        return false;
      }
      var i := 0;
      while i < len
        invariant i <= len
        invariant data[..i] == rhs.data[..i]
      {
        if data[i] != rhs.data[i] {
          assert Contents()[i] != rhs.Contents()[i];
          return false;
        }
        i := i + 1;
      }
      return true;
    }

    /** `operator!=`. */
    method NotEquals(rhs: CappedString) returns (r: bool)
      requires Valid() && rhs.Valid()
      ensures r <==> Contents() != rhs.Contents()
    {
      var e := Equals(rhs);
      r := !e;
    }

    /**
     * `operator+=`: append as much of rhs as fits.  Overflow or a
     * truncated rhs sets the flag; nothing clears it.  The lengths are
     * computed exactly (see AppendExtentAsWritten for the source's
     * `size_type` arithmetic).
     */
    method Append(rhs: CappedString)
      requires Valid() && rhs.Valid() && rhs.N == N
      requires rhs == this || rhs.data != data
      modifies this, data
      ensures Valid()
      ensures Contents() == Capped(old(Contents()) + old(rhs.Contents()), N)
      ensures truncated == (old(truncated) || old(len) + old(rhs.len) > N || old(rhs.truncated))
    {
      ghost var c := Contents();
      ghost var r := rhs.Contents();
      var oldLen := len;
      var extent := AppendExtent(N, len, rhs.len);
      var newLength, extra := extent.0, extent.1;
      var t := truncated;
      if len + rhs.len > N {
        t := true;
      }
      if rhs.truncated {
        t := true;
      }
      CopyFrom(rhs, extra);
      AppendContents(c, r, extra, N, data[..]);
      ghost var d := data[..newLength];
      assert d == data[..][..oldLen + extra];
      truncated := t;
      len := newLength;
      data[len] := NUL;
      assert data[..len] == d;
    }

    /**
     * The `std::copy` of `operator+=`: the first `count` chars of rhs go
     * to positions size() onwards.  When rhs is this string, count is at
     * most size(), so the chars copied are not overwritten first.
     */
    method CopyFrom(rhs: CappedString, count: nat)
      requires Valid() && rhs.Valid() && len + count <= N && count <= rhs.len
      requires rhs == this ==> count <= len
      requires rhs == this || rhs.data != data
      modifies data
      ensures data[..len] == old(data[..len])
      ensures data[len..len + count] == old(rhs.Contents())[..count]
    {
      ghost var c := data[..len];
      ghost var r := rhs.Contents();
      for i := 0 to count
        invariant data[..len] == c
        invariant data[len..len + i] == r[..i]
        invariant forall k :: 0 <= k < count ==> rhs.data[k] == r[k]
      {
        data[len + i] := rhs.data[i];
      }
    }

    /** `c_str()` read as a C string: up to the first NUL, never past size(). */
    function CStr(): (s: seq<char>)
      reads this, data
      requires Valid()
      ensures s == CString(Contents())
    {
      CStringStopsAtNul(data[..], len);
      assert data[..][..len] == data[..len];
      CString(data[..])
    }

    function Capacity(): (n: nat)
      reads this
      ensures n == N
    {
      N
    }

    function Size(): (n: nat)
      reads this, data
      requires Valid()
      ensures n == |Contents()| <= Capacity()
    {
      len
    }

    function IsEmpty(): (b: bool)
      reads this, data
      requires Valid()
      ensures b <==> Contents() == []
    {
      len == 0
    }

    function IsTruncated(): bool
      reads this
    {
      truncated
    }

    /** `clear()`: empty and not truncated. */
    method Clear()
      requires Valid()
      modifies this, data
      ensures Valid() && Contents() == [] && !truncated
    {
      data[0] := NUL;
      len := 0;
      truncated := false;
    }

    /** `push_back`: at capacity only sets the flag; otherwise appends one char. */
    method PushBack(x: char)
      requires Valid()
      modifies this, data
      ensures Valid()
      ensures old(len) == N ==> Contents() == old(Contents()) && truncated
      ensures old(len) < N ==> Contents() == old(Contents()) + [x] && truncated == old(truncated)
    {
      if len == N {
        truncated := true;
      } else {
        data[len] := x;
        len := len + 1;
        data[len] := NUL;
      }
    }

    /** `pop_back`: removes the last char and clears the flag; the string must not be empty. */
    method PopBack()
      requires Valid() && len > 0
      modifies this, data
      ensures Valid()
      ensures Contents() == old(Contents())[..old(len) - 1] && !truncated
    {
      len := len - 1;
      data[len] := NUL;
      truncated := false;
    }

    /**
     * `resize(n)`: beyond the capacity, grow to N and set the flag;
     * otherwise take size n and clear it.  New positions become NUL.
     */
    method Resize(n: nat)
      requires Valid()
      modifies this, data
      ensures Valid()
      ensures Contents() == Resized(old(Contents()), Min(n, N))
      ensures truncated <==> n > N
    {
      ghost var c := Contents();
      var oldSize := len;
      var newSize := if n > N then N else n;
      if newSize > oldSize {
        for k := oldSize to newSize
          invariant data[..oldSize] == c
          invariant forall j :: oldSize <= j < k ==> data[j] == NUL
        {
          data[k] := NUL;
        }
      }
      truncated := n > N;
      len := newSize;
      data[len] := NUL;
      assert data[..len] == Resized(c, len);
    }
  }

  /** `operator+`: a copy of lhs with rhs appended; neither operand changes. */
  method Plus(lhs: CappedString, rhs: CappedString) returns (r: CappedString)
    requires lhs.Valid() && rhs.Valid() && rhs.N == lhs.N
    ensures fresh(r) && fresh(r.data) && r.Valid() && r.N == lhs.N
    ensures r.Contents() == Capped(lhs.Contents() + rhs.Contents(), lhs.N)
    ensures r.truncated == (lhs.truncated || lhs.len + rhs.len > lhs.N || rhs.truncated)
  {
    r := new CappedString.Copy(lhs);
    r.Append(rhs);
  }
}
