/**
 * `jewel::detail::SmallestSufficientUnsignedType<N, Begin>`: the smallest
 * unsigned type, starting the search at `Begin`, whose maximum holds N.
 *
 * The compile-time recursion over types becomes a function over the
 * ranks of the unsigned types.  `UnsignedTypeTraits` gives each rank its
 * maximum and the next larger rank (`unsigned long long` has none), and
 * the specialisation for `Begin == size_t` ends the recursion.  With
 * LP64, `size_t` is `unsigned long`, so the search never goes past it.
 */
module SmallestSufficientUnsignedType {

  datatype UnsignedRank = UChar | UShort | UInt | ULong | ULongLong

  /** The position of a rank in the chain. */
  function Rank(u: UnsignedRank): nat {
    match u
    case UChar => 0
    case UShort => 1
    case UInt => 2
    case ULong => 3
    case ULongLong => 4
  }

  /** `UnsignedTypeTraits<T>::max`. */
  function MaxOf(u: UnsignedRank): nat {
    match u
    case UChar => 0xFF
    case UShort => 0xFFFF
    case UInt => 0xFFFF_FFFF
    case ULong => 0xFFFF_FFFF_FFFF_FFFF
    case ULongLong => 0xFFFF_FFFF_FFFF_FFFF
  }

  /** `UnsignedTypeTraits<T>::NextLargestType`, absent for `unsigned long long`. */
  function NextLargest(u: UnsignedRank): (v: UnsignedRank)
    requires u != ULongLong
    ensures Rank(v) == Rank(u) + 1
  {
    match u
    case UChar => UShort
    case UShort => UInt
    case UInt => ULong
    case ULong => ULongLong
  }

  const SizeT: UnsignedRank := ULong

  /** The largest value of `size_t`, the type of the template argument N. */
  const SizeMax: nat := MaxOf(SizeT)

  /** `Ternary<test, T, F>::Result`. */
  function Ternary<T>(test: bool, ifTrue: T, ifFalse: T): T {
    if test then ifTrue else ifFalse
  }

  /**
   * `SmallestSufficientUnsignedType<N, Begin>::Result`.  The first rank
   * from `begin` on whose maximum is at least n, or `size_t` at the end
   * of the search, which holds every N since N is itself a `size_t`.
   */
  function Smallest(n: nat, begin: UnsignedRank): (r: UnsignedRank)
    requires n <= SizeMax && Rank(begin) <= Rank(SizeT)
    ensures Rank(begin) <= Rank(r) <= Rank(SizeT)
    ensures n <= MaxOf(r)
    ensures forall u: UnsignedRank :: Rank(begin) <= Rank(u) < Rank(r) ==> MaxOf(u) < n
    decreases Rank(SizeT) - Rank(begin)
  {
    if begin == SizeT then SizeT
    else Ternary(n <= MaxOf(begin), begin, Smallest(n, NextLargest(begin)))
  }

  /** The template's default second argument: start at `unsigned char`. */
  function SmallestFor(n: nat): (r: UnsignedRank)
    requires n <= SizeMax
    ensures n <= MaxOf(r)
    ensures forall u: UnsignedRank :: Rank(u) < Rank(r) ==> MaxOf(u) < n
  {
    Smallest(n, UChar)
  }

  /** A larger N never yields a smaller type. */
  lemma Monotone(n: nat, m: nat)
    requires n <= m <= SizeMax
    ensures Rank(SmallestFor(n)) <= Rank(SmallestFor(m))
  {
  }

  /** The compile-time checks in the library's test file. */
  lemma Examples()
    ensures SmallestFor(0) == UChar && SmallestFor(5) == UChar
    ensures SmallestFor(500) == UShort && SmallestFor(0xFFFF) == UShort
    ensures SmallestFor(0xFFFF_FFFF) == UInt
    ensures SmallestFor(0x1_0000_0000) == ULong
  {
  }
}
