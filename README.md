# jewel, modelled in Dafny

A model of the core of *jewel*, a C++ utility library, and of its two
Python log-conversion scripts, with proofs of what the code promises.

- **Decimal** (`decimal_spec.dfy`, `decimal.dfy`, `decimal_muldiv.dfy`,
  `decimal_truncation.dfy`, `decimal_io.dfy`): a number stored as a 64-bit
  `intval` and a count of `places` (at most 19). `DecimalSpec` gives each
  pair the rational number it stands for and defines every operation as a
  function on pairs. `Decimal.Decimal` is the class itself: fields `intval`
  and `places`, updated in place by methods that mirror the member
  functions loop for loop and are proved equal to those functions, with
  the strong guarantee (unchanged on failure) stated in their contracts.
  Each exception class is an error tag. The string constructor, the
  printer (`output_aux` with `operator<<`) and `operator>>` are in
  `DecimalIo`, with the parse/print round trip.
- **Checked arithmetic** (`checked_arithmetic_detail.dfy`,
  `checked_arithmetic.dfy`, `int_types.dfy`): the overflow predicates for
  `+ - * / %` on every signed and unsigned integer type, each proved exact
  against mathematical integers.
- **NumDigits**, **SmallestSufficientUnsignedType**, **FlagSet**,
  **Version** and **power_vector**, each in its own file.
- **CappedString** (`capped_string.dfy`): a class with a fixed-size buffer,
  a length and a truncation flag, and the message truncation of
  **Exception** (`exception.dfy`), which is built on it.
- **The log converters** (`log_to_csv.dfy`, `log_conv_json_to_csv.dfy`):
  splitting on `{RECORD}` and `{FIELD}`, the two-state bracket scan, and the
  first-seen ordering of the headers with rows padded by `""`.

The platform is taken to be LP64: `long` is 64 bits and `size_t` is
`unsigned long`. `arithmetic.dfy` and `digit_strings.dfy` hold shared
helpers: powers, division facts, and decimal digit strings.

## Model

| member | source | states |
|---|---|---|
| CheckedArithmeticDetail.AdditionIsUnsafeSigned | include/detail/checked_arithmetic_detail.hpp:221-228 | true iff the mathematical sum x + y lies outside [min, max]; the bound it compares with is computed without overflow |
| CheckedArithmeticDetail.AdditionIsUnsafeUnsigned | include/detail/checked_arithmetic_detail.hpp:230-235 | true iff x + y exceeds max (the addition would wrap) |
| CheckedArithmeticDetail.SubtractionIsUnsafeSigned | include/detail/checked_arithmetic_detail.hpp:237-244 | true iff x - y lies outside [min, max] |
| CheckedArithmeticDetail.SubtractionIsUnsafeUnsigned | include/detail/checked_arithmetic_detail.hpp:246-252 | true iff x - y is negative, i.e. y > x |
| CheckedArithmeticDetail.MulBothPositive | include/detail/checked_arithmetic_detail.hpp:254-281 | positive operands: `x > max / y` iff x * y leaves the range, and the quotient itself fits the type |
| CheckedArithmeticDetail.MulPositiveByNonPositive | include/detail/checked_arithmetic_detail.hpp:254-281 | x > 0 >= y: `y < min / x` iff x * y leaves the range |
| CheckedArithmeticDetail.MulNonPositiveByPositive | include/detail/checked_arithmetic_detail.hpp:254-281 | x <= 0 < y: `x < min / y` iff x * y leaves the range |
| CheckedArithmeticDetail.MulBothNonPositive | include/detail/checked_arithmetic_detail.hpp:254-281 | x < 0, y <= 0: `y < max / x` iff x * y leaves the range |
| CheckedArithmeticDetail.MultiplicationIsUnsafeSigned | include/detail/checked_arithmetic_detail.hpp:254-281 | true iff x * y lies outside [min, max]; a zero operand is always safe |
| CheckedArithmeticDetail.MultiplicationIsUnsafeUnsigned | include/detail/checked_arithmetic_detail.hpp:283-295 | safe when either operand is 0, otherwise true iff x * y > max |
| CheckedArithmeticDetail.SignedQuotientRange | include/detail/checked_arithmetic_detail.hpp:297-305 | a truncated quotient x / y fits the signed type iff it is not min / -1 |
| CheckedArithmeticDetail.DivisionIsUnsafeSigned | include/detail/checked_arithmetic_detail.hpp:297-305 | true iff y == 0 or the truncated quotient leaves the range (exactly y == -1 and x == min) |
| CheckedArithmeticDetail.DivisionIsUnsafeUnsigned | include/detail/checked_arithmetic_detail.hpp:307-314 | true iff y == 0: an unsigned quotient always fits |
| CheckedArithmeticDetail.AdditionIsUnsafe | src/checked_arithmetic_detail.cpp:25-77 | the ten overloads: signed types use the signed template, unsigned types the unsigned one; true iff x + y is out of the type's range |
| CheckedArithmeticDetail.SubtractionIsUnsafe | src/checked_arithmetic_detail.cpp:79-134 | per-type dispatch; true iff x - y is out of the type's range |
| CheckedArithmeticDetail.MultiplicationIsUnsafe | src/checked_arithmetic_detail.cpp:136-197 | per-type dispatch; true iff x * y is out of the type's range |
| CheckedArithmeticDetail.DivisionIsUnsafe | src/checked_arithmetic_detail.cpp:199-260 | per-type dispatch; true iff y == 0 or the C++ quotient is out of range |
| CheckedArithmeticDetail.RemainderRange | src/checked_arithmetic_detail.cpp:262-343 | a C++ remainder with a non-zero divisor always lies in the type |
| CheckedArithmeticDetail.RemainderIsUnsafe | src/checked_arithmetic_detail.cpp:262-343 | the remainder overloads call the division templates: true iff y == 0 or the quotient is out of range |
| CheckedArithmetic.AdditionIsUnsafe | include/checked_arithmetic.hpp:116-121 | forwards to the detail overload; true iff the sum is not representable |
| CheckedArithmetic.SubtractionIsUnsafe | include/checked_arithmetic.hpp:123-128 | true iff the difference is not representable |
| CheckedArithmetic.MultiplicationIsUnsafe | include/checked_arithmetic.hpp:130-135 | true iff the product is not representable |
| CheckedArithmetic.DivisionIsUnsafe | include/checked_arithmetic.hpp:137-142 | true iff the divisor is zero or the quotient is not representable |
| CheckedArithmetic.RemainderIsUnsafe | include/checked_arithmetic.hpp:144-149 | true iff the divisor is zero or the quotient is not representable |
| CheckedArithmetic.Symmetric | include/detail/checked_arithmetic_detail.hpp:221-295 | addition and multiplication checks give the same answer for (x, y) and (y, x) |
| CheckedArithmetic.RemainderIsDivision | src/checked_arithmetic_detail.cpp:262-343 | `remainder_is_unsafe(x, y) == division_is_unsafe(x, y)` for every type |
| CheckedArithmetic.Boundaries | include/detail/checked_arithmetic_detail.hpp:237-305 | signed types: min * -1 unsafe, max * -1 safe, zero factor safe, -max - 1 safe, min - 1 and max + 1 unsafe, min / -1 and x / 0 unsafe, min / 1 safe |
| CheckedArithmetic.UnsignedBoundaries | include/detail/checked_arithmetic_detail.hpp:230-314 | unsigned types: 0 - 1 and max + 1 unsafe, zero factor safe, x / 0 unsafe, x / 1 safe |
| IntTypes.TRemAbs | src/checked_arithmetic_detail.cpp:262-343 | the C++ remainder is the remainder of the magnitudes, carrying the sign of the dividend |
| NumDigits.DigitCount | include/num_digits.hpp:96-104 | reference digit count; at least 1 for every value |
| NumDigits.DigitCountIs | include/num_digits.hpp:96-104 | DigitCount(n, b) == k iff k >= 1, n < b^k and (k > 1 ==> b^(k-1) <= n): the least k with n < b^k |
| NumDigits.DivideByBase | include/num_digits.hpp:102 | `i /= base` stays in the type, divides the magnitude by the base and strictly decreases it (termination) |
| NumDigits.NumDigitsAux | include/num_digits.hpp:96-104 | the counting loop on the value of the type itself (never its absolute value) returns DigitCount(|x|, base); zero gives 1 |
| NumDigits.Count | src/num_digits.cpp:23-91 | every overload: base > 1 is demanded, result >= 1 and b^(k-1) <= |x| < b^k |
| NumDigits.SignIndependent | include/num_digits.hpp:96-104 | the overloads give the same count for x of one integer type and y of another whenever |x| == |y|; in particular `num_digits(-x) == num_digits(x)` |
| NumDigits.Examples | tests/num_digits_tests.cpp:23-67 | 0 and 6 have one decimal digit, 4 has three and 8 four binary digits, LLONG_MIN and LLONG_MAX both have 19 decimal digits |
| SmallestSufficientUnsignedType.NextLargest | include/detail/smallest_sufficient_unsigned_type.hpp:19-56 | `UnsignedTypeTraits<T>::NextLargestType` is the next rank in the chain uchar, ushort, uint, ulong, ulonglong |
| SmallestSufficientUnsignedType.Smallest | include/detail/smallest_sufficient_unsigned_type.hpp:81-99 | from `Begin` on, the first rank whose maximum is >= N: it holds N, every rank before it is too small, and the `size_t` specialisation ends the search |
| SmallestSufficientUnsignedType.SmallestFor | include/detail/smallest_sufficient_unsigned_type.hpp:81-93 | with the default `Begin = unsigned char`: the smallest unsigned type holding N |
| SmallestSufficientUnsignedType.Monotone | include/detail/smallest_sufficient_unsigned_type.hpp:81-99 | a larger N never yields a smaller type |
| SmallestSufficientUnsignedType.Examples | tests/smallest_sufficient_unsigned_type_tests.cpp:11-49 | 0 and 5 give unsigned char, 500 and USHRT_MAX unsigned short, UINT_MAX unsigned int, UINT_MAX + 1 unsigned long |
| FlagSet.CheckFlagAcceptance | include/flag_set.hpp:255-271 | `(flag \| mask) == mask` accepts a flag iff every bit of it is in the mask |
| FlagSet.FlagSet.constructor | include/flag_set.hpp:203-211 | a default-constructed set holds exactly `default_value` (and only flags of the mask) |
| FlagSet.FlagSet.Set | include/flag_set.hpp:214-225 | throws iff the flag has a bit outside the mask, leaving the value unchanged; otherwise ORs the flag in; keeps the value within the mask |
| FlagSet.FlagSet.Clear | include/flag_set.hpp:228-239 | throws iff the flag has a bit outside the mask, leaving the value unchanged; otherwise clears exactly the flag's bits |
| FlagSet.FlagSet.Test | include/flag_set.hpp:242-252 | throws iff the flag has a bit outside the mask; otherwise true iff value and flag share a single flag; changes nothing |
| FlagSet.FlagSet.Underlying | include/flag_set.hpp:274-284 | returns the held bits, which lie within the mask |
| FlagSet.CommonFlag | include/flag_set.hpp:251 | `(m_value & p_flag) != 0` iff some single flag of p_flag is held |
| FlagSet.SetLaws | include/flag_set.hpp:223 | setting is idempotent, sets every bit of the flag and leaves the other bits unchanged |
| FlagSet.ClearLaws | include/flag_set.hpp:237 | clearing removes exactly the flag's bits and is idempotent; setting afterwards restores them |
| FlagSet.StaticAssertTooWeak | include/flag_set.hpp:190-193 | the compile-time check admits mask 1 with default 3, which holds a flag outside the mask |
| FlagSet.StaticAssertAdmitsDocumented | include/flag_set.hpp:85-92 | every default value the documentation allows passes the compile-time check |
| FlagSet.CopyThroughUnderlying | tests/flag_set_tests.cpp:133-142 | setting `underlying()` of one set on a fresh set with default 0 reproduces the same bits |
| Version.KeyInjective | src/version.cpp:23-30 | the packed key of (major, minor, patch) determines the version |
| Version.KeyOrder | src/version.cpp:38-67 | comparing keys is comparing (major, minor, patch) lexicographically |
| Version.Equal | src/version.cpp:23-30 | true iff all three components are equal |
| Version.NotEqual | src/version.cpp:32-36 | the negation of `==` |
| Version.Less | src/version.cpp:38-67 | lexicographic on (major, minor, patch): rhs is more recent |
| Version.LessOrEqual | src/version.cpp:69-73 | `<` or `==`: key at most |
| Version.Greater | src/version.cpp:75-79 | `rhs < lhs` |
| Version.GreaterOrEqual | src/version.cpp:81-85 | `rhs < lhs` or `rhs == lhs` |
| Version.Trichotomy | src/version.cpp:23-85 | exactly one of a < b, a == b, b < a holds |
| Version.Transitive | src/version.cpp:38-67 | `<` is transitive, so the versions sort as the test array does |
| Version.ToStringInjective | include/version.hpp:131-142 | the output "major.minor.patch" determines the version |
| Version.OutputExample | include/version.hpp:131-142 | (12, 0, 306) is written as "12.0.306" |
| PowerVector.ChosenBelow | power_vector.hpp:18-32 | the positions a sub-vector takes are strictly increasing, so every sub-vector keeps the order of v |
| PowerVector.PowerVectorSpec | power_vector.hpp:69-73 | the power vector has exactly 2^n members |
| PowerVector.ChosenBelowMembers | power_vector.hpp:85-88 | position k is in sub-vector s iff bit n-1-k of s is set |
| PowerVector.FirstIsEmpty | power_vector.hpp:80-109 | sub-vector 0 is empty |
| PowerVector.LastIsWhole | power_vector.hpp:80-109 | sub-vector 2^n - 1 is v itself |
| PowerVector.SubvectorOfThree | power_vector_tests.cpp:51-121 | for a three-element vector [a, b, c] the sub-vectors in order are [], [c], [b], [b, c], [a], [a, c], [a, b], [a, b, c] |
| PowerVector.StepFacts | power_vector.hpp:95-104 | each inner step: `i / j` is 0 or 1 (the assertion at line 99), it is 1 iff the position's bit is set, and `i -= j; j /= 2` keep i == s mod j |
| PowerVector.PowerVector | power_vector.hpp:60-113 | the two loops return exactly PowerVectorSpec(v): 2^n sub-vectors, number s built from the bits of s; the argument is not changed |
| CappedString.CString | include/capped_string.hpp:368-381 | what a `char const*` denotes: a NUL-free prefix of the text that ends at its first NUL |
| CappedString.CStringStopsAtNul | include/capped_string.hpp:519-522 | nothing after a NUL is ever read |
| CappedString.Capped | include/capped_string.hpp:437-459 | the first min(size, n) chars of a string, a prefix of it |
| CappedString.Resized | include/capped_string.hpp:599-618 | resizing to m keeps the first min(m, size) chars and fills new positions with NUL |
| CappedString.CappedAppend | include/capped_string.hpp:437-466 | capping after each append equals capping once at the end, so chained `+=` is a capped concatenation |
| CappedString.AppendExample | tests/capped_string_tests.cpp:369-416 | capacity 5: "yep" + "hello" holds "yephe" |
| CappedString.LeadingNulExample | tests/capped_string_tests.cpp:640-669 | "\0abc" denotes the empty string, so it is never truncated |
| CappedString.SizeTypeMax | include/capped_string.hpp:86-88 | `size_type` is the smallest unsigned type holding N + 1, so it can hold every length up to N + 1 |
| CappedString.AppendExtentAsWritten | include/capped_string.hpp:437-459 | `new_length` and `num_extra_elements` as the source computes them, reduced modulo the range of `size_type` |
| CappedString.AppendExtent | include/capped_string.hpp:437-459 | the same lengths in exact arithmetic: new length min(size + rhs.size, N), and size + extra equals it |
| CappedString.AppendExtentAgrees | include/capped_string.hpp:437-459 | when size + rhs.size fits `size_type`, the as-written lengths equal the exact ones |
| CappedString.AppendExtentWraps | include/capped_string.hpp:437-459 | capacity 200 (unsigned char size_type): 150 + 150 wraps to 44 and the copy of 150 chars runs past the 201-char buffer |
| CappedString.CappedString.Contents | include/capped_string.hpp:535-538 | the string held has size() chars, at most N |
| CappedString.CappedString.Empty | include/capped_string.hpp:360-365 | the default constructor: empty, NUL-terminated, not truncated |
| CappedString.CappedString.FromCString | include/capped_string.hpp:367-381 | copies the C string up to its first NUL, at most N chars; truncated iff the C string is longer than N |
| CappedString.CappedString.FromString | include/capped_string.hpp:383-399 | copies the first min(size, N) chars, embedded NULs included; truncated iff size > N |
| CappedString.CappedString.Copy | include/capped_string.hpp:401-406 | the copy constructor reproduces length, contents and the truncation flag |
| CappedString.CappedString.Assign | include/capped_string.hpp:408-415 | assignment (through `unchecked_assign`, lines 629-641) reproduces length, contents and flag; self-assignment changes nothing |
| CappedString.CappedString.Equals | include/capped_string.hpp:417-425 | true iff lengths and chars are equal; the truncation flag is ignored |
| CappedString.CappedString.NotEquals | include/capped_string.hpp:427-433 | the negation of `==` |
| CappedString.CappedString.Append | include/capped_string.hpp:435-459 | appends as much of rhs as fits: contents become the capped concatenation; the flag is set on overflow or a truncated rhs and never cleared; the invariant (NUL at size()) is kept |
| CappedString.CappedString.CopyFrom | include/capped_string.hpp:453 | the `std::copy` puts the first `count` chars of rhs after size() and leaves the existing chars alone, even when rhs is this string |
| CappedString.CappedString.CStr | include/capped_string.hpp:517-522 | `c_str()` read as a C string is the contents up to their first NUL |
| CappedString.CappedString.Capacity | include/capped_string.hpp:524-530 | capacity() is N |
| CappedString.CappedString.Size | include/capped_string.hpp:532-538 | size() is the length of the contents, at most capacity() |
| CappedString.CappedString.IsEmpty | include/capped_string.hpp:540-546 | true iff the contents are empty |
| CappedString.CappedString.Clear | include/capped_string.hpp:556-565 | empty and not truncated |
| CappedString.CappedString.PushBack | include/capped_string.hpp:567-585 | at capacity only sets the flag and keeps the contents; otherwise appends the char and keeps the flag |
| CappedString.CappedString.PopBack | include/capped_string.hpp:587-595 | removes the last char and clears the flag; demands a non-empty string |
| CappedString.CappedString.Resize | include/capped_string.hpp:597-618 | beyond N: size N and truncated; otherwise size n and not truncated; new positions become NUL |
| CappedString.Plus | include/capped_string.hpp:461-466 | a copy of lhs with rhs appended, neither operand changed |
| Exception.MaxMessageSize | src/exception.cpp:150-154 | `max_message_size()` is 211 - 11 == 200 |
| Exception.Truncate | src/exception.cpp:46-62 | the string cut or NUL-padded to N - 11 chars, then "(TRUNCATED)": it fills the capacity and is not marked truncated |
| Exception.StampText | src/exception.cpp:49-51 | the stamp has no NUL, so converting it through `c_str()` gives it back whole and untruncated |
| Exception.StampFits | src/exception.cpp:57-60 | the stamp exactly fills the room `resize` leaves, so `+=` neither cuts nor flags it |
| Exception.TruncateCStr | src/exception.cpp:64-71 | a null pointer gives an empty string; otherwise the truncated copy of the C string |
| Exception.WhatShows | src/exception.cpp:46-62 | read up to its first NUL, the stored string is the message itself when shorter than 200 chars, else its first 200 chars followed by "(TRUNCATED)" |
| Exception.ExactlyMaxIsStamped | src/exception.cpp:46-62 | a message of exactly 200 chars already carries the stamp |
| Exception.Exception.constructor | src/exception.cpp:77-90 | all four strings get the same treatment (a null pointer an empty string); `line()` returns the line unchanged, -1 meaning none supplied |
| Exception.ShownArgumentIs | src/exception.cpp:114-142 | each getter shows what `truncate_c_str` stored for its argument, read up to the first NUL |
| Exception.ShortMessageExample | tests/exception_tests.cpp:43-52 | "Something's cooking." is shown unchanged |
| LogToCsv.Put | tools/jewel_log_to_csv.py:87 | `d[k] = v` on an OrderedDict: a new key goes last, an existing key keeps its position |
| LogToCsv.PutGet | tools/jewel_log_to_csv.py:87 | after `d[k] = v`, k maps to v and every other key keeps its value |
| LogToCsv.Split | tools/jewel_log_to_csv.py:61 | `str.split(sep)` yields at least one part |
| LogToCsv.JoinSplit | tools/jewel_log_to_csv.py:61-67 | splitting loses nothing: joining the parts with the separator gives back the text |
| LogToCsv.SplitLeftmost | tools/jewel_log_to_csv.py:61 | the split cuts at the leftmost occurrences: no occurrence of the separator starts inside a part, even one running on into the next separator, and the last part has none |
| LogToCsv.SplitPartsFree | tools/jewel_log_to_csv.py:61 | no part contains the separator |
| LogToCsv.Strip | tools/jewel_log_to_csv.py:64 | `str.strip()` leaves no whitespace at either end |
| LogToCsv.StripIdempotent | tools/jewel_log_to_csv.py:64-72 | stripping twice is stripping once |
| LogToCsv.StripEmpty | tools/jewel_log_to_csv.py:65-72 | a chunk strips to "" (and is skipped) exactly when it is all whitespace |
| LogToCsv.FirstClose | tools/jewel_log_to_csv.py:78-80 | the position of the first ']', or the length if there is none |
| LogToCsv.ScanStep | tools/jewel_log_to_csv.py:77-84 | one char of the automaton: before the first ']' it joins the name unless it is '['; every ']' joins nothing; after the first ']' every other char (including '[') joins the contents |
| LogToCsv.ScanCell | tools/jewel_log_to_csv.py:74-86 | the char loop with the `in_contents` flag returns the name (every char before the first ']' except '[') and the contents (every char after it except ']') |
| LogToCsv.FieldOfWellFormed | tools/jewel_log_to_csv.py:74-86 | "[name]contents" with a bracket-free name gives that name and the contents without their ']' |
| LogToCsv.FieldWithoutClose | tools/jewel_log_to_csv.py:74-86 | a cell without ']' is all name (less its '[') with empty contents |
| LogToCsv.ScanExampleClosed | tools/jewel_log_to_csv.py:74-86 | "[a]x]y" gives name "a" and contents "xy" |
| LogToCsv.ScanExampleOpen | tools/jewel_log_to_csv.py:74-86 | "[ab" gives name "ab" and empty contents |
| LogToCsv.LogStringToDictList | tools/jewel_log_to_csv.py:53-89 | the record loop returns LogDicts(log): records split at "{RECORD}", stripped, blank ones dropped, in order, or the assertion failure |
| LogToCsv.RecordCells | tools/jewel_log_to_csv.py:67-87 | the cell loop returns RecordOf(cells): fields split at "{FIELD}", stripped, blank ones skipped |
| LogToCsv.DictsStep | tools/jewel_log_to_csv.py:63-88 | one more raw record: a blank one changes nothing, a failing one fails the log, any other appends its dictionary |
| LogToCsv.RecordStep | tools/jewel_log_to_csv.py:69-87 | one more cell: a blank one changes nothing, one not starting with '[' fails, any other is put into the record |
| LogToCsv.FailurePropagates | tools/jewel_log_to_csv.py:73 | once a cell fails the assertion the record fails, whatever follows |
| LogToCsv.FailurePropagatesDicts | tools/jewel_log_to_csv.py:73 | once a record fails the whole log fails |
| LogToCsv.RepeatedNameKeepsPositionTakesLastValue | tools/jewel_log_to_csv.py:87 | a repeated name in a record keeps its first position and takes the last value |
| LogToCsv.BadCellFails | tools/jewel_log_to_csv.py:73 | a non-blank chunk not starting with '[' fails the assertion |
| LogToCsv.AddNamesProperties | tools/jewel_log_to_csv.py:100-104 | adding names keeps them distinct, only grows the list, and adds exactly the new names |
| LogToCsv.HeaderNamesProperties | tools/jewel_log_to_csv.py:100-108 | the headers are distinct, name exactly the fields that occur in some record, in first-seen order (earlier records' headers are a prefix) |
| LogToCsv.MakeHeaders | tools/jewel_log_to_csv.py:100-108 | `make_headers` returns the names in first-seen order, each numbered by its position from 0 |
| LogToCsv.NumberNew | tools/jewel_log_to_csv.py:107 | `ret[name] = len(ret)` appends a new name with the next number |
| LogToCsv.RowOf | tools/jewel_log_to_csv.py:110-115 | a row has one cell per header |
| LogToCsv.MakeRow | tools/jewel_log_to_csv.py:110-115 | `make_row`: "" everywhere, then each value at its header's index: the record's value under each header, "" where it has none |
| LogToCsv.MakeTable | tools/jewel_log_to_csv.py:92-121 | the header row followed by one row per record, in order |
| LogToCsv.TableOf | tools/jewel_log_to_csv.py:117-121 | the table has one more row than there are records |
| LogToCsv.EmptyLog | tools/jewel_log_to_csv.py:53-121 | an empty log gives no records and the table [[]] |
| LogToCsv.ExampleTable | tools/jewel_log_to_csv.py:92-121 | records {a: 1, b: 2} and {b: 3} give [["a", "b"], ["1", "2"], ["", "3"]] |
| LogConvJsonToCsv.JsonHeaders | log_conv_json_to_csv.py:20-25 | each key gets number `len(headers)` on its first appearance: the keys in first-seen order, numbered by position |
| LogConvJsonToCsv.KeyStep | log_conv_json_to_csv.py:22-25 | one more key: a new key is numbered `len(headers)` and appended, a known key changes nothing |
| LogConvJsonToCsv.JsonToRows | log_conv_json_to_csv.py:29-36 | the rows are the same table as the text-log tool's: the header row, then one row per message in order, each value at its key's index and "" elsewhere |
| DecimalSpec.MaxPlacesIsDigitsOfMin | src/decimal.cpp:107-110 | the maximum precision, 19, is the number of decimal digits of the smallest `long long` |
| DecimalSpec.Rationalized | src/decimal.cpp:181-194 | rationalize never adds places or grows the intval, keeps at least min_places places when there were that many, and stops with an intval not ending in 0 unless it reached min_places |
| DecimalSpec.RationalizedValue | src/decimal.cpp:181-194 | rationalizing never changes the number the Decimal stands for |
| DecimalSpec.RationalizedValid | src/decimal.cpp:181-194 | a valid Decimal stays valid when rationalized |
| DecimalSpec.RationalizedCanonical | src/decimal.cpp:181-194 | rationalize(0) yields the shortest pair: no places, or an intval not ending in 0 |
| DecimalSpec.CanonicalUnique | src/decimal.cpp:698-707 | two shortest pairs for the same number are the same pair |
| DecimalSpec.EqualsIsValueEquality | src/decimal.cpp:698-707 | comparing rationalized pairs is exactly equality of the numbers, both directions |
| DecimalSpec.RoundHalfAwayNearest | src/decimal.cpp:246-288 | the rounding of rescale gives the nearest integer multiple, ties going away from zero, and keeps the sign |
| DecimalSpec.RoundHalfAwayBound | src/decimal.cpp:246-288 | rounding away at least one place leaves a magnitude of at most abs(x) / 10 + 1, so the result fits |
| DecimalSpec.Rescaled | src/decimal.cpp:196-292 | a rescale that succeeds leaves exactly p places |
| DecimalSpec.RescaledMeaning | src/decimal.cpp:196-292 | rescale fails iff raising is needed and the scaled intval does not fit or p exceeds 19; raising keeps the number; lowering gives the nearest number with p places, ties away from zero; the result is valid |
| DecimalSpec.RescaleCastThrows | src/decimal.cpp:224-232 | as written, raising zero from 0 to 19 places throws from the cast of 10^19 although the result fits |
| DecimalSpec.RescaledAgrees | src/decimal.cpp:196-292 | apart from raising by exactly 19 places, rescale as written and the corrected rescale agree |
| DecimalSpec.CoNormalized | src/decimal.cpp:122-152 | on success both operands have the same places |
| DecimalSpec.CoNormalizedMeaning | src/decimal.cpp:122-152 | co_normalize keeps both numbers, brings them to the larger places, and fails exactly when an operand at those places does not fit |
| DecimalSpec.SumExact | src/decimal.cpp:373-388 | += is exact: a range error iff co-normalizing fails, an addition error iff the exact sum overflows, otherwise the exact sum at the larger places |
| DecimalSpec.DifferenceExact | src/decimal.cpp:392-410 | -= is exact in the same way, with a subtraction error |
| DecimalSpec.SumOfNonZeroDiffers | src/decimal.cpp:373-388 | adding a non-zero number changes the value |
| DecimalSpec.StepsAreOne | src/decimal.cpp:320-337 | ++ adds exactly one and -- subtracts exactly one, keeping the places |
| DecimalSpec.ImplicitDivisorOutOfTable | src/decimal.cpp:295-314 | as written, the unit table has no entry for 19 places, though a valid 19-place Decimal can be incremented |
| DecimalSpec.ImplicitDivisorAgrees | src/decimal.cpp:295-314 | below 19 places the table entry is 10^places |
| DecimalSpec.NegatedMeaning | src/decimal.cpp:725-742 | unary minus fails iff the intval is the smallest `long long`, and otherwise negates the number |
| Decimal.MulFailureKeepsValue | src/decimal.cpp:413-489 | a failed *= leaves the same number, whether it was restored or only rationalized |
| Decimal.Decimal.constructor | src/decimal.cpp:158-160 | the default Decimal is zero with no places |
| Decimal.Decimal.Create | src/decimal.cpp:162-179 | a range error iff more than 19 places, otherwise exactly the given pair |
| Decimal.Decimal.Rationalize | src/decimal.cpp:181-194 | the new pair is Rationalized of the old one, and stays valid |
| Decimal.Decimal.Rescale | src/decimal.cpp:196-292 | returns 0 with the rescaled pair, or 1 with the object untouched, as Rescaled says |
| Decimal.Decimal.TruncateAndRound | src/decimal.cpp:246-290 | the truncation loop plus the rounding step give the intval rounded half away from zero to p places |
| Decimal.Decimal.CoNormalize | src/decimal.cpp:122-152 | both objects end as CoNormalized says; on failure a range error and both untouched |
| Decimal.Decimal.Increment | src/decimal.cpp:320-337 | ++ yields Incremented, or an incrementation error with the object unchanged |
| Decimal.Decimal.Decrement | src/decimal.cpp:346-364 | -- yields Decremented, or a decrementation error with the object unchanged |
| Decimal.Decimal.PostIncrement | src/decimal.cpp:339-344 | returns the old value and then increments |
| Decimal.Decimal.PostDecrement | src/decimal.cpp:366-371 | returns the old value and then decrements |
| Decimal.Decimal.AddAssign | src/decimal.cpp:373-388 | the new value is Sum, or its error is thrown with the object as before |
| Decimal.Decimal.SubAssign | src/decimal.cpp:392-410 | the new value is Difference, or its error is thrown with the object as before |
| Decimal.Decimal.MultiplyBy | src/decimal.cpp:432-479 | the multiplication goes ahead iff the product of the magnitudes fits, and then leaves the signed product rounded to at most 19 places |
| Decimal.Decimal.RoundAndSign | src/decimal.cpp:459-479 | more than 19 places are rounded once to 19, then the sign is put back; the result is valid |
| Decimal.Decimal.MulAssign | src/decimal.cpp:413-489 | the new value is Product; on failure a multiplication error, with the original restored or rationalized |
| Decimal.Decimal.RaiseTo | src/decimal.cpp:546-555 | the dividend reaches the target places iff its intval times the power of 10 fits, and then holds exactly that |
| Decimal.Decimal.LongDivide | src/decimal.cpp:568-634 | the long-division loop ends with the quotient, places and remainder of LongDivision |
| Decimal.Decimal.DivideMagnitude | src/decimal.cpp:546-634 | raising fails iff the raised dividend does not fit; otherwise the state is the long division of the raised dividend |
| Decimal.Decimal.DivAssign | src/decimal.cpp:492-659 | the new value is Quotient, or its error is thrown with the object as before |
| Decimal.Decimal.Less | src/decimal.cpp:662-695 | true iff the left number is smaller than the right |
| Decimal.Decimal.Equals | src/decimal.cpp:698-707 | true iff the two numbers are equal |
| Decimal.Add | include/decimal.hpp:1044-1050 | the Decimal of Sum, or Sum's error |
| Decimal.Subtract | include/decimal.hpp:1052-1058 | the Decimal of Difference, or Difference's error |
| Decimal.Multiply | include/decimal.hpp:1060-1066 | the Decimal of Product, or Product's error |
| Decimal.Divide | include/decimal.hpp:1068-1074 | the Decimal of Quotient, or Quotient's error |
| Decimal.UnaryPlus | include/decimal.hpp:1076-1081 | a copy with the same pair |
| Decimal.Negate | src/decimal.cpp:725-742 | the Decimal of Negated: a unary-minus error for the smallest intval |
| Decimal.Round | src/decimal.cpp:710-722 | the rescaled copy, or a range error where rescale fails; the argument is unchanged |
| Decimal.NotEqual | include/decimal.hpp:1083-1088 | true iff the numbers differ |
| Decimal.Greater | include/decimal.hpp:1090-1095 | true iff the left number is larger |
| Decimal.AtMost | include/decimal.hpp:1097-1102 | true iff the left number is at most the right |
| Decimal.AtLeast | include/decimal.hpp:1104-1109 | true iff the left number is at least the right |
| DecimalTruncation.RoundFromTruncated | src/decimal.cpp:246-288 | truncating all but one place, then rounding on the last dropped digit, is rounding half away from zero |
| DecimalTruncation.TruncatedLess | src/decimal.cpp:662-695 | comparing a truncated intval with the shorter intval, strictly for a non-negative and loosely for a negative one, decides the order exactly |
| DecimalTruncation.LongerIsSmaller | src/decimal.cpp:662-695 | the sign-dependent test on the truncated intval holds iff the longer operand is the smaller number |
| DecimalTruncation.LessByLonger | src/decimal.cpp:662-695 | picking the answer from which operand is longer and whether the longer is smaller gives exactly lhs < rhs |
| DecimalTruncation.SamePlacesLess | src/decimal.cpp:662-695 | with equal places, the order of the numbers is the order of the intvals |
| DecimalMulDiv.ValueMul | src/decimal.cpp:452-458 | multiplying the intvals and adding the places multiplies the numbers |
| DecimalMulDiv.ProductNearest | src/decimal.cpp:413-489 | a successful product is valid, is exact when the places add up to at most 19, and is otherwise within half of 10^-19 of the exact product |
| DecimalMulDiv.MulGuardCounterexample | src/decimal.cpp:422-443 | as written, -0.9223372036854775808 passes the guard, yet its intval is the smallest and cannot be negated |
| DecimalMulDiv.MulGuardCorrectedIsStricter | src/decimal.cpp:422-430 | whenever the guard as written refuses, the corrected guard refuses too |
| DecimalMulDiv.DoubleRoundingCounterexample | src/decimal.cpp:459-468 | as written, 1e-19 * 0.45 rounds place by place to 1e-19, while the nearest 19-place number, which Product gives, is 0 |
| DecimalMulDiv.LongDivision | src/decimal.cpp:568-634 | the loop never removes places, stops at 19, and keeps the quotient in range |
| DecimalMulDiv.LongDivisionExact | src/decimal.cpp:568-634 | quotient and remainder stay exact for the dividend shifted by the places added, and the loop stops only when nothing remains, 19 places are reached, or one more digit does not fit |
| DecimalMulDiv.DigitAddCounterexample | src/decimal.cpp:568-634 | as written, 6456360425798343066 / 7 adds a place because the quotient times ten fits, then overflows when it adds the digit 8 |
| DecimalMulDiv.RemainderTimesTenCounterexample | src/decimal.cpp:517-528 | as written, an 18-digit divisor passes the guard, yet its remainder times ten overflows, for example in 999999999999999998 / 999999999999999999 |
| DecimalMulDiv.DividedFacts | src/decimal.cpp:492-634 | after the guards, raising and long division, quotient * divisor + remainder is the dividend at the quotient's places, and the signs are remembered |
| DecimalMulDiv.HalfUp | src/decimal.cpp:636-649 | the quotient rounded half up on the remainder is within half the divisor of the exact quotient |
| DecimalMulDiv.QuotientNearest | src/decimal.cpp:492-659 | a successful quotient is valid, the divisor is non-zero, and the quotient is the nearest number to the exact quotient at its places; those places are 19, or all that fit, or the division was exact |
| DecimalIo.ParsedValid | include/decimal.hpp:840-991 | whatever the string constructor accepts is a valid Decimal |
| DecimalIo.ParseNumeral | include/decimal.hpp:840-991 | a sign, digits and at most one point denote the signed digit value with one place per fraction digit; parsing fails only on more than 19 places or on overflow |
| DecimalIo.NoDigitRejected | include/decimal.hpp:962-975 | a string with no digit is a from-string error |
| DecimalIo.StrayRejected | include/decimal.hpp:906-948 | a character that is not a digit, a leading sign or the first point is a from-string error |
| DecimalIo.SecondPointRejected | include/decimal.hpp:936-948 | a second point is a from-string error |
| DecimalIo.ZeroNumeral | include/decimal.hpp:840-991 | a numeral of zeros is zero with as many places as fraction digits, whatever the sign |
| DecimalIo.PlusZero | include/decimal.hpp:899-903 | "+0" reads as zero with no places |
| DecimalIo.MinusZero | include/decimal.hpp:899-903 | "-0.0" reads as zero with one place |
| DecimalIo.LargestPowerFits | include/decimal.hpp:976-989 | 10^18 written out reads back exactly |
| DecimalIo.NextPowerOutOfRange | include/decimal.hpp:976-989 | 10^19 written out is a range error |
| DecimalIo.Parse | include/decimal.hpp:840-991 | the constructor's loops compute exactly Parsed |
| DecimalIo.ParseUnsigned | include/decimal.hpp:905-990 | after the sign, the loops, checks and cast compute Interpreted of the whole and fraction parts |
| DecimalIo.CopyWhole | include/decimal.hpp:905-918 | succeeds iff the part before the point is all digits, and then copies it |
| DecimalIo.CopyFraction | include/decimal.hpp:936-952 | succeeds iff the part after the point is all digits, and then copies it |
| DecimalIo.CopyOutcome | include/decimal.hpp:954-990 | once both parts are digits, the checks and the cast on the copy decide as Interpreted does |
| DecimalIo.CastOfDigits | include/decimal.hpp:962-989 | the copy is empty or a lone sign iff there is no digit; otherwise the cast gives the signed value when it fits |
| DecimalIo.GroupedByCount | include/decimal.hpp:1268-1295 | the grouping loop started on an empty group writes Grouped |
| DecimalIo.GroupedAfterFirst | include/decimal.hpp:1278-1294 | after the first digit, the grouping loop and Grouped agree |
| DecimalIo.WriteGrouped | include/decimal.hpp:1268-1295 | the whole part written with separators is Grouped |
| DecimalIo.PrintedAgrees | include/decimal.hpp:1192-1305 | the printer as written and the corrected printer differ only on the smallest intval with places |
| DecimalIo.ParsePrinted | include/decimal.hpp:1192-1305 | round trip: with no grouping, parsing what is printed gives back the same intval and places, for every valid Decimal |
| DecimalIo.ParsePrintedAsWritten | include/decimal.hpp:1192-1305 | the same round trip for the printer as written, wherever it agrees with the corrected one |
| DecimalIo.PrintedZeroParses | include/decimal.hpp:1193-1200 | printed zero reads back as zero with the same places |
| DecimalIo.MinimumParses | include/decimal.hpp:1204-1216 | the smallest intval, printed by the stream, reads back |
| DecimalIo.PrintedNonZeroParses | include/decimal.hpp:1218-1305 | a printed non-zero Decimal reads back as itself |
| DecimalIo.MinimumWithPlacesMisprinted | include/decimal.hpp:1204-1216 | as written, the smallest intval with places prints as the integer and reads back as a different number |
| DecimalIo.Output | include/decimal.hpp:1116-1318 | operator<< writes PrintedAsWritten for the locale's point, separator and grouping |
| DecimalIo.WriteNonZero | include/decimal.hpp:1218-1305 | for a non-zero intval, the loops write PrintedNonZero |
| DecimalIo.WriteFraction | include/decimal.hpp:1227-1246 | the fraction is the last places digits, zero-padded on the left when there are fewer, and r digits are left for the whole part |
| DecimalIo.WriteWhole | include/decimal.hpp:1256-1267 | without grouping, the whole digits are written unchanged |
| DecimalIo.NonZeroLayout | include/decimal.hpp:1248-1304 | the text is the sign, then the grouped whole part or "0", then the point and the fraction |
| DecimalIo.PrintedPadded | include/decimal.hpp:1227-1300 | 1 with two places prints as "0.01" |
| DecimalIo.PrintedNegativePadded | include/decimal.hpp:1227-1304 | -30 with five places prints as "-0.00030" |
| DecimalIo.PrintedZeroPlaces | include/decimal.hpp:1193-1200 | zero with three places prints as "0.000" |
| DecimalIo.GroupedThousand | include/decimal.hpp:1268-1295 | with groups of 3, '.' as separator and ',' as point, 1000 prints as "1.000" |
| DecimalIo.GroupedShort | include/decimal.hpp:1268-1295 | a single short group has no separator: "900" |
| DecimalIo.GroupedWithPlace | include/decimal.hpp:1268-1295 | -50800.5 prints as "-50.800,5" under the same locale |
| DecimalIo.GroupedUneven | tests/decimal_tests.cpp:1881-1883 | under grouping "\1\2\3" with separator 'w', the digits 453709876 are grouped as "453w709w87w6" |
| DecimalIo.Extract | include/decimal.hpp:1323-1357 | operator>> fails iff the read failed or the word does not parse; on failure d is unchanged, otherwise it holds the parsed value |
| DecimalSpec.RoundedExamples | tests/decimal_tests.cpp:2042-2075 | round(-2.25, 1) is -2.3, round(2.25, 1) is 2.3, round(-1234.987, 2) is -1234.99, round(89.9999, 0) is 90, round(13.49, 5) keeps five places, and 120 places is a range error |

## Left out

- I/O: stream state (failbit, badbit and the copy through a string stream in `operator<<`) is reduced to a success flag, and the word `operator>>` reads is a parameter. Python file reading, `json.loads`, the `csv` writer, `check_argc` and `main` are out.
- Locale machinery (`std::numpunct`, `imbue`, wide characters): the decimal point, thousands separator and grouping string are parameters. The grouping string is a sequence of group sizes.
- DecimalIo.StreamInserted: the standard library's own `long long` output, used only for the smallest intval, is modelled with the same grouping rule as the rest of the printer.
- `std::pow` (src/decimal.cpp:230-232, power_vector.hpp:71-73) is modelled as exact powers of 10 and 2, and `boost::lexical_cast<long long>` as an exact conversion with a range check. The one place where the cast does fail, 10^19, is the first finding below.
- The exception class hierarchy, `JEWEL_THROW` and the exception stream operator: each Decimal exception is an error tag. The Exception copy and move constructors (src/exception.cpp:92-108) are not modelled.
- Assertions (`JEWEL_ASSERT`) are not checked at run time. Where one guards a state the model can reach, it is a requirement or a finding.
- Logging, tolerant_string, stopwatch, serialisation and the older copies of the library at the repository root are not part of this model.
- Decimal.Decimal.Rescale: models the corrected rescale of the first finding below (an exact power of ten). The source throws `boost::bad_numeric_cast` when raising by 19 places (src/decimal.cpp:230-232); DecimalSpec.RescaleCastThrows states that case.
- DecimalSpec.Rescaled: the same corrected rescale as a function; RescaledAsWritten beside it keeps the cast failure.
- DecimalSpec.CoNormalized: raises through the corrected rescale of the first finding, so it does not throw the cast error when the places differ by 19.
- Decimal.Decimal.CoNormalize: inherits the corrected rescale of the first finding. Where the source throws the cast error, the model either raises exactly or reports a range error when the raised intval does not fit.
- Decimal.Decimal.AddAssign: inherits the corrected rescale of the first finding. For 1 + 0.0000000000000000001 the source throws `boost::bad_numeric_cast`; the model reports a range error and leaves the object unchanged.
- Decimal.Decimal.SubAssign: inherits the corrected rescale of the first finding, as AddAssign does.
- Decimal.Add: inherits the corrected rescale of the first finding through `+=`.
- Decimal.Subtract: inherits the corrected rescale of the first finding through `-=`.
- Decimal.Round: inherits the corrected rescale of the first finding. round(Decimal("0"), 19) throws the cast error in the source (src/decimal.cpp:230-232); the model returns zero with 19 places.
- Decimal.Decimal.Increment: adds the unit 10^places, the corrected behaviour of the second finding. At 19 places the source indexes past its 19-entry table of units (src/decimal.cpp:295-314).
- Decimal.Decimal.Decrement: subtracts the unit 10^places, the corrected behaviour of the second finding, as Increment does.
- Decimal.Decimal.PostIncrement: inherits the corrected unit of the second finding through Increment.
- Decimal.Decimal.PostDecrement: inherits the corrected unit of the second finding through Decrement.
- Decimal.Decimal.MulAssign: models the corrected guard of the fourth finding and the single rounding of the fifth. The source's guard lets the smallest intval with places through (src/decimal.cpp:422-443), and the source rounds one place at a time (src/decimal.cpp:459-468).
- Decimal.Decimal.MultiplyBy: rounds once through RoundAndSign, the corrected behaviour of the fifth finding. It requires an intval other than the smallest `long long`, which MulAssign's corrected guard of the fourth finding ensures.
- Decimal.Decimal.RoundAndSign: rounds once with Rescale to 19 places, the corrected behaviour of the fifth finding. The source loops `rescale(m_places - 1)` (src/decimal.cpp:459-468); DecimalMulDiv.DoubleRoundingCounterexample states the difference.
- Decimal.Multiply: inherits the corrections of the fourth and fifth findings through `*=`.
- Decimal.Decimal.DivAssign: models the corrected long division of the sixth and seventh findings.
- Decimal.Decimal.LongDivide: stops before the quotient with its next digit would leave the `long long` range, and keeps the remainder exact. The source multiplies the remainder by ten unchecked (src/decimal.cpp:626) and adds the digit unchecked (src/decimal.cpp:632); these are the sixth and seventh findings.
- Decimal.Decimal.DivideMagnitude: inherits the corrected long division of the sixth and seventh findings through LongDivide.
- Decimal.Divide: inherits the corrected long division of the sixth and seventh findings through `/=`.
- DecimalMulDiv.LongDivision: the corrected long division of the sixth and seventh findings as a function.
- CappedString.CappedString.Append: computes the new length in exact arithmetic, the corrected behaviour of the eighth finding. The source computes `m_len + rhs.m_len` in `size_type`, which can wrap (include/capped_string.hpp:437-459); CappedString.AppendExtentAsWritten keeps the wrap.
- CappedString.Plus: inherits the exact length of the eighth finding through Append.
- DecimalIo.Output follows the printer as written. The round trip is proved for the corrected printer `Printed`, and for the printer as written wherever the two agree.
- Version.ToString: its own contract says only that the text has at least five characters; what it writes is pinned down by ToStringInjective and OutputExample.
- CappedString: the capacity N, a template argument in the library, is a constant field fixed by the constructor.
- The text-log converter: every `]` is dropped, even inside contents, and a `[` is kept inside contents (tools/jewel_log_to_csv.py:77-84). For records {a: 1, b: 2} and {b: 3}, the row of the second record is ["", "3"], the value under its own header `b`, not ["3", ""].

## Findings

| source | as written | input that shows it | evidently intended | confidence | as-written member | corrected member |
|---|---|---|---|---|---|---|
| src/decimal.cpp:224-232 | raising places casts `pow(10, k)` to `long long`; 10^19 does not fit, so the cast throws | rescale of 0 (no places) to 19 places; also round(Decimal("5"), 19) | return the rescaled value, or 1 when the product overflows | not executed | DecimalSpec.RescaleCastThrows | DecimalSpec.RescaledMeaning |
| src/decimal.cpp:295-314 | the table of units has 19 entries, for 0 to 18 places, but 19 places are allowed | ++ on -0.9 held as intval -9 * 10^18 with 19 places | add one, 10^19 units, whenever the sum fits: here 0.1 | not executed | DecimalSpec.ImplicitDivisorOutOfTable | DecimalSpec.StepsAreOne |
| include/decimal.hpp:1204-1216 | the smallest intval is printed as a plain integer, ignoring its places; only an assertion excludes places | intval -9223372036854775808 with 1 place | print the places as for any other intval | not executed | DecimalIo.MinimumWithPlacesMisprinted | DecimalIo.ParsePrinted |
| src/decimal.cpp:422-443 | the guard compares the number with minimum(), not the intval with the smallest `long long` | -0.9223372036854775808 * 1: the guard passes, then negating the intval overflows | refuse whenever the rationalized intval is the smallest | not executed | DecimalMulDiv.MulGuardCounterexample | DecimalMulDiv.ProductNearest |
| src/decimal.cpp:459-468 | more than 19 places are removed one at a time, rounding at each step | 0.0000000000000000001 * 0.45 gives 1e-19 | round once, to 0 | not executed | DecimalMulDiv.DoubleRoundingCounterexample | DecimalMulDiv.ProductNearest |
| src/decimal.cpp:517-528 | an 18-digit divisor passes the guard, but `remainder * 10` in the long-division loop can overflow | 999999999999999998 / 999999999999999999 | keep the remainder exact | not executed | DecimalMulDiv.RemainderTimesTenCounterexample | DecimalMulDiv.LongDivisionExact |
| src/decimal.cpp:568-634 | a place is added when the quotient times ten fits, and then the digit is added unchecked | 6456360425798343066 / 7: quotient 922337203685477580, remainder 6, then 9223372036854775800 + 8 overflows | stop when the quotient with the next digit does not fit | not executed | DecimalMulDiv.DigitAddCounterexample | DecimalMulDiv.QuotientNearest |
| include/capped_string.hpp:437-459 | `m_len + rhs.m_len` is computed in `size_type` and can wrap | capacity 200: appending 150 chars to 150 chars | new length min(sum, N) in exact arithmetic | not executed | CappedString.AppendExtentWraps | CappedString.AppendExtent |
| include/flag_set.hpp:190-193 | the static_assert only asks that the default value be zero or share a bit with the mask | mask 1 with default value 3: bit 2 lies outside the mask | every bit of the default value within the mask, as lines 85-92 document | not executed | FlagSet.StaticAssertTooWeak | FlagSet.FlagSet.constructor |
