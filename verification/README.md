# VSL bounded containers in Dafny

This project models the two fixed-capacity, non-allocating containers of the
Vertex Standard Library (VSL), written for microcontroller targets:

- `vsl::array<Capacity, T>`: a size counter plus a `Capacity`-element buffer.
  It supports capacity-checked bulk `assign`, the three access tiers `at`,
  `at_or` and `operator[]`, copy assignment, iteration over `[0, size)` and
  equality that depends on size.
- `vsl::string<Capacity>`: a `Capacity + 1` character buffer plus a length.
  The character at index `size` is always `'\0'`. It supports construction
  and `assign` from a C string with silent truncation, bounded `push_back`,
  `clear`, a safe `at`, `operator[]`, equality against a C string, and
  `from_int`, which renders a signed `int` in base 10.

Each container is an immutable datatype. The datatype holds the capacity,
the size counter and the whole buffer, including the slots past `size`.
Every mutator is a pure function. A mutator that returns `bool` in C++
returns `Step(ok, after)`: that boolean, and the object it leaves behind.
`clear()` (C++ `void`) and copy assignment (C++ `array&`) return only the
new object.
`from_int` is a method whose loops follow the source's two loops: the
scratch loop over digits and the copy-backwards loop. Each container has a
`Valid()` predicate as its representation invariant. For the string this
includes the terminator. Every operation takes `Valid()` as a precondition
and promises it of its result.

Modelling choices:

- `vsl::len` is `nat`.
- A `const char*` argument is `Option<seq<char>>`. `None` is the null
  pointer. `Some(s)` holds the characters before the terminator, so `s`
  contains no `'\0'` (the `CString.WellFormed` predicate).
- The compile-time guard `Capacity < platform::strlen_max` is a
  precondition of the string constructors (`VslString.New`,
  `VslString.FromCStr`). `Platform.StrlenMax` gives the limit per target:
  128 for AVR and 4096 for ARM.
- The debug-build trap in the array's `at` is the precondition
  `index < size`. `operator[]` only requires that the index lies inside the
  buffer.
- `memcpy` and `memcmp` act element by element. The array's element type
  must support `==`.
- The string's `operator==` calls `strcmp`. `strcmp` compares the buffer up
  to its first NUL, not up to `size`, and the model follows the code here.
  `push_back('\0')` can store a NUL inside the content. Equality therefore
  means "the content equals the argument" only when the content holds no
  NUL. `VslString.EmbeddedNulHidden` shows the exception: a string with
  content `"a\0"` compares equal to `"a"`.
- `from_int` takes a C++ `int`, which the model takes to be 32 bits wide
  (`Decimal.Int32`), as on the ARM target. On AVR, `int` is 16 bits (see
  "Left out"). The library's own code negates a negative value in place,
  which is undefined for `INT_MIN` (see Findings). The model used by the
  string computes the magnitude in unbounded arithmetic and is proved
  correct for every 32-bit value. The source's arithmetic is modelled separately in `FromIntAsWritten`, with
  wrapping negation and C's `/` and `%`, which truncate toward zero.

## Model

| member | source | states |
|---|---|---|
| VslArray.New | VSL/array.hpp:36-39 | a default-constructed array is valid, has the requested capacity, size 0, is empty, and holds the zero value in every slot |
| VslArray.BoundedArray.Empty | VSL/array.hpp:65-67 | `empty()` holds exactly when there are no logical elements |
| VslArray.BoundedArray.At | VSL/array.hpp:72-78 | for an index below the size (the debug check) it returns that logical element |
| VslArray.BoundedArray.AtOr | VSL/array.hpp:83-85 | returns the logical element at every index below the size and the default at every other index |
| VslArray.BoundedArray.Index | VSL/array.hpp:90-92 | needs only an index inside the buffer; inside the logical range it agrees with `at` |
| VslArray.BoundedArray.Assign | VSL/array.hpp:98-105 | fails, leaving the array unchanged, exactly when `n > Capacity`; otherwise the size becomes `n`, the logical content becomes `data[0..n)`, slots past `n` keep their old values, and validity is preserved |
| VslArray.BoundedArray.CopyFrom | VSL/array.hpp:110-114 | after `a = b`, `a` has `b`'s size and logical elements, compares equal to `b`, and keeps its own slots past that size |
| VslArray.BoundedArray.Walk | VSL/array.hpp:121-144 | iterating from `begin()` to `end()` visits exactly `size()` elements, those at indices `0, 1, …, size-1` in order |
| VslArray.SameFrom | VSL/array.hpp:153 | the element-wise comparison over `[i, n)` is true exactly when every position in that range agrees |
| VslArray.Equals | VSL/array.hpp:151-154 | `==` is true exactly when the two logical contents are the same sequence, so arrays of different sizes differ |
| VslArray.EqualsIgnoresSlack | VSL/array.hpp:151-154 | slots past `size` never change the result of `==` |
| VslArray.EqualsDetectsChange | VSL/array.hpp:151-154 | overwriting one logical element with a different value makes the array unequal to its former self |
| VslArray.EqualsIsEquivalence | VSL/array.hpp:151-154 | `==` is reflexive, symmetric and transitive |
| VslArray.AssignThenAtOr | VSL/array.hpp:98-104 | an `assign` of `n <= Capacity` elements succeeds, and `at_or` then returns `data[i]` below `n` and the default at every `i >= n` |
| CString.TextBefore | VSL/string.hpp:153 | the text C sees in a buffer contains no NUL, is a prefix of the buffer, and is followed by a NUL unless it reaches the buffer's end |
| CString.TextBeforeIs | VSL/string.hpp:153 | a buffer shows the text `s` exactly when `s` is a prefix of the buffer followed by a terminator |
| CString.StrCmpEqFrom | VSL/string.hpp:153 | `strcmp` resumed at a position where the texts agree so far is zero exactly when the buffer's visible text is the argument |
| CString.StrCmpEq | VSL/string.hpp:153 | `strcmp(buffer, s) == 0` exactly when the buffer's visible text is `s` |
| VslString.MaxCopyFrom | VSL/string.hpp:31-37 | the scan resumed at any position not past the limits stops at `min(strlen(s), Capacity)` |
| VslString.MaxCopy | VSL/string.hpp:31-37 | `max_copy(s)` is `min(strlen(s), Capacity)` |
| VslString.New | VSL/string.hpp:42-44 | needs `Capacity < strlen_max` and yields a valid, empty string of that capacity whose every slot holds `'\0'` |
| VslString.FromCStr | VSL/string.hpp:46-54 | needs `Capacity < strlen_max`; a null source yields the empty string; otherwise the size is `min(strlen, Capacity)` and the content is that prefix of the source |
| VslString.BoundedString.View | VSL/string.hpp:58-60 | the text a C reader of `c_str()` sees is the prefix of the content before its first NUL: it holds no NUL, is followed by a NUL when shorter than the content, and is the whole content when the content holds no NUL |
| VslString.BoundedString.Empty | VSL/string.hpp:74-76 | `empty()` holds exactly when the content is empty |
| VslString.BoundedString.Store | VSL/string.hpp:88-90 | copying a text that fits makes it the content, re-establishes the terminator, and leaves the slots past the terminator untouched |
| VslString.BoundedString.Clear | VSL/string.hpp:80-83 | `clear()` leaves a valid, empty string in which only the first slot was rewritten |
| VslString.BoundedString.Assign | VSL/string.hpp:85-92 | fails and changes nothing exactly for a null source; otherwise succeeds even when truncating, with size `min(strlen, Capacity)` and the source's prefix as content |
| VslString.BoundedString.PushBack | VSL/string.hpp:94-102 | a full string refuses the character and is unchanged; otherwise the size grows by one, the content gains `c` at its end, earlier characters are kept, and the terminator moves along |
| VslString.BoundedString.At | VSL/string.hpp:143-145 | returns the content character below the size and `'\0'` at every other index |
| VslString.BoundedString.Index | VSL/string.hpp:147-149 | needs only an index inside the `Capacity + 1` buffer; up to and including `size` it agrees with `at`, because of the terminator |
| VslString.BoundedString.EqualsCStr | VSL/string.hpp:151-154 | false for a null pointer; otherwise true exactly when the visible text equals the argument, which for NUL-free content means content equality |
| VslString.BoundedString.FromInt | VSL/string.hpp:106-139 | succeeds exactly when the rendering fits in `Capacity`; on success the content is the base-10 rendering of `v` and parses back to `v`; on failure the string is cleared; validity is kept either way |
| VslString.ScratchDigits | VSL/string.hpp:109-125 | the scratch buffer holds at most 11 characters and, read backwards, is the rendering of `v` |
| VslString.CopyBackwards | VSL/string.hpp:131-134 | the reversal loop puts the scratch buffer backwards at the front of the string buffer and leaves the rest unchanged |
| VslString.PushAllKeepsWhatFits | VSL/string.hpp:94-102 | a run of `push_back` calls leaves the old content followed by the pushed characters, cut at the capacity, so pushes past the capacity change nothing |
| VslString.ClearThenPushesMatchesFresh | VSL/string.hpp:80-102 | `clear()` followed by pushes leaves the same size and content as the same pushes on a fresh string |
| VslString.ClearKeepsOldBytes | VSL/string.hpp:80-83 | after `clear()`, an old character past the terminator is still readable through `operator[]`, where a fresh string holds `'\0'` |
| VslString.ConstructRoundTrip | VSL/string.hpp:46-54 | a C string that fits is stored whole, is what `c_str()` shows, and compares equal to the string |
| VslString.EmbeddedNulHidden | VSL/string.hpp:151-154 | after `push_back('a')` and `push_back('\0')`, the content is `"a\0"` but the string compares equal to `"a"` |
| Decimal.DecimalDigits | VSL/string.hpp:117-121 | the digits of `n` are a non-empty run of decimal digits, with a leading `'0'` only for zero, where they are exactly `"0"` |
| Decimal.Render | VSL/string.hpp:106-139 | the intended text of `from_int` is non-empty and NUL-free, starts with `'-'` exactly for negatives, and has no leading zeros |
| Decimal.Reverse | VSL/string.hpp:131-134 | reading backwards puts character `k` at position `len - 1 - k` |
| Decimal.DigitsRoundTrip | VSL/string.hpp:117-121 | the value of the digits of `n` is `n` |
| Decimal.RenderRoundTrip | VSL/string.hpp:106-139 | a rendering is a canonical text and parses back to the value rendered |
| Decimal.ParseRoundTrip | VSL/string.hpp:106-139 | every canonical text is the rendering of the value it denotes |
| Decimal.RenderInjective | VSL/string.hpp:106-139 | different values have different renderings |
| Decimal.RenderLength | VSL/string.hpp:109 | a 32-bit value renders to at most 11 characters (at most 10 when it is not negative), so the 12-character scratch buffer is large enough |
| Decimal.RenderExamples | VSL/string.hpp:106-139 | 0 renders as `"0"` and -5 as `"-5"` |
| Decimal.IntMinRendering | VSL/string.hpp:106-139 | the most negative 32-bit value renders as `"-2147483648"` |
| FromIntAsWritten.CRem | VSL/string.hpp:119 | C's `%` by a positive divisor has magnitude below the divisor, matches `%` on non-negative values, and is never positive for negative values |
| FromIntAsWritten.WrappingNegate | VSL/string.hpp:114 | `value = -value` negates every value except `INT_MIN`, which wraps to itself |
| FromIntAsWritten.Scratch | VSL/string.hpp:117-121 | the do-while loop appends at least one character and never fills more than the 12 slots of `tmp` |
| FromIntAsWritten.ScratchLength | VSL/string.hpp:117-121 | on a value of magnitude below `10^k`, of either sign, the loop adds at most `k` characters |
| FromIntAsWritten.RenderAsWritten | VSL/string.hpp:106-125 | the text the source builds has 1 to 11 characters, so appending `'-'` never writes past the 12-slot `tmp`, and it starts with `'-'` for every negative input |
| FromIntAsWritten.ScratchIsReversedDigits | VSL/string.hpp:117-121 | on a non-negative value the loop emits exactly its decimal digits, least significant first |
| FromIntAsWritten.AsWrittenAgreesAwayFromIntMin | VSL/string.hpp:112-134 | for every input except `INT_MIN` the source's algorithm produces the intended rendering |
| FromIntAsWritten.IntMinMisrendered | VSL/string.hpp:112-121 | for `INT_MIN` the source's text ends in `'('` rather than `'8'`, so it differs from `"-2147483648"` |

## Left out

- Raw pointers: the array's `data()` and the string's `c_str()` and `data()` return pointers. Writes through them bypass the size counter and cannot be expressed over a value model. `VslString.BoundedString.View` models only what a reader of `c_str()` sees.
- `size()` and `capacity()` are the datatype's `size` and `capacity` fields. They have no separate members.
- The array constructor's unused `clear` parameter has no behaviour.
- Byte-level `memcpy`/`memcmp`, trivially-copyable element types and padding bytes: copying and comparison act element by element.
- VslArray.BoundedArray.Assign: `data` is a sequence, so a null pointer with `n == 0` (a `memcpy` from null) is not modelled. It is also a separate value, so a source that overlaps the array's own buffer, for which `memcpy` is undefined, is modelled as an ordinary copy.
- VslString.BoundedString.Assign: the source text is a separate value, so a source that overlaps the string's own buffer (for example `s.assign(s.c_str() + 1)`), for which `memcpy` is undefined, is modelled as an ordinary copy.
- VslArray.BoundedArray.CopyFrom: self-assignment, where `memcpy` gets overlapping arguments, is modelled as an ordinary copy.
- VslArray.BoundedArray.At: the `__builtin_trap()` of debug builds is the precondition `index < size`, not a modelled abort. Release builds without the check are also covered only through that precondition. `at` returns a `T&`, and the model treats it as a read, so writes through the returned reference are not modelled. The source declares it a `const` member that returns a non-const reference into the buffer, which does not compile once instantiated; the model ignores that.
- VslArray.BoundedArray.Index: `operator[]` also returns a `T&` from a `const` member. It is modelled as a read, for the same reasons as `at`.
- VslString.ScratchDigits: the 12-character `tmp` array is a sequence whose length the loop guard keeps at most 12. The source's `tmp[i++] = '-'` after 12 digits would write past `tmp`. That cannot happen for 32-bit values, and `Decimal.RenderLength` proves it.
- VslString.BoundedString.FromInt: computes the magnitude in unbounded arithmetic, so it is the corrected behaviour for `INT_MIN`, not the source's. The source's behaviour is `FromIntAsWritten.RenderAsWritten`.
- VslString.ClearThenPushesMatchesFresh: proves equal size and content, not an equal buffer. `clear()` rewrites only slot 0, so old characters past the terminator survive and differ from the zeros of a fresh string. `VslString.ClearKeepsOldBytes` gives an example.
- FromIntAsWritten.RenderAsWritten: `int` is modelled as 32 bits. On the AVR target avr-gcc's `int` is 16 bits, so the overflowing input there is -32768, not -2147483648. Under the same wrap-around assumption `from_int(-32768)` would also print non-digits. `FromIntAsWritten.AsWrittenAgreesAwayFromIntMin` and the Findings row describe 32-bit targets only.
- VslString.PushAllKeepsWhatFits: `PushAll` drops the boolean each `push_back` returns. Success of each call follows from `PushBack`'s own contract.
- Platform selection: the preprocessor dispatch between targets, the version and language-standard `#error` guards, and the aggregation headers are not modelled. The older 0.5.1 `include/` tree is also left out. The only trace of the platform layer is the constant `Platform.StrlenMax`. Its ARM value, 4096, is the constant in `Drivers/arm_driver.hpp`. The selector in `Drivers/platform.hpp` never includes that file: it includes `"STM32/"` for ARM. So 4096 is the driver file's value, not what the selector as written delivers.

## Findings

| source | as written | input that shows it | evidently intended | confidence | as-written member | corrected member |
|---|---|---|---|---|---|---|
| VSL/string.hpp:112-121 | a negative `value` is negated in place (`value = -value`), then digits are taken with `value % 10` and `value /= 10` | with a 32-bit `int`, `from_int(-2147483648)` on a string with `Capacity >= 11`: the negation overflows, and with the usual two's-complement wrap the value stays negative, so the loop emits `'0' + (-8)`, i.e. `'('`, as the last character (`FromIntAsWritten.IntMinMisrendered`) | the content `"-2147483648"` | not executed; the overflow is undefined behaviour, and the output assumes the wrap-around | FromIntAsWritten.RenderAsWritten | VslString.BoundedString.FromInt |
