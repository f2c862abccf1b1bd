# bscpp harness and trab2fa exercises in Dafny

This project models `bscpp.hpp`. It is a single-header C++ test harness: a program
registers `examples` blocks. Each block calls `check_expect(a, b)` or `check_within(a, b, delta)`,
and `run_tests()` runs every block and reports the checks that failed. The header also contains two
engines. `is_eq` decides equality between values, and `repr` renders a value as text for a
failure report. Both recurse over the structure of a value: `std::string`, `const char*` and
`char` arrays, enums, other built-in arrays,
`std::array`, `std::vector`, `std::set`, `std::map` and aggregates of up to six fields. Type and
enumerator names come from slicing the compiler's pretty function signature (`type_name_`,
`type_name`, `enum_name`). The project also models the two exercises of `trab2fa.cpp` that
use the harness: `reorganiza_nomes` and `num_unicos`.

The C++ header dispatches at compile time on the static type of a value. In the model
that dispatch is a datatype, `Values.Value`, with one constructor per kind of type the header
distinguishes. Each value carries the type labels that `type_name<T>()` would give.
`is_eq` and `repr` become recursive functions over `Value`. Every loop in the source becomes a
method proved equal to those functions:

- the iterator walk of `is_eq_iter`;
- the lookup loop of map `is_eq`;
- the separator loops of `repr_iter` and map `repr`;
- the replace loop of `type_name` and its in-place `std::remove` of spaces;
- the loops of the two exercises.

The harness's global state is the class `Harness.TestState`:

- the registry `exs`, null until the first registration;
- the `unsigned int` counter `num_checks`;
- the vector `failures`.

`register_example`, `check_equal`, `_check_within` and `run_tests` are methods on it.

Modules, one per file:

- `Wrappers`: the `Option` type.
- `Text`: decimal rendering of integers (`ostream << int`), with its parse-back, and separator joining.
- `Values`: the value tree, well-formedness, map lookup, and the text a `std::string` sees in a
  C string. A `const char*` and a `char[N]` carry their address, because `is_eq` on two of them
  compares pointers. A type that is not standard-layout keeps its fields, because `is_eq` still
  compares them.
- `Names`: `find`, `rfind` and `substr` with `size_t` wrap-around; `type_name_` and `enum_name<T, E>` slicing; `type_name`; the candidate chain of `enum_name`.
- `Equality`: `is_eq`, `is_eq_iter` and map `is_eq`.
- `Repr`: `repr`, `repr_iter` and map `repr`.
- `Harness`: the registry, the counter, failure records and `run_tests`.
- `Exercises`: `reorganiza_nomes` and `num_unicos`.

## Model

| member | source | states |
|---|---|---|
| Text.DigitChar | trabfa/bscpp.hpp:187 | a digit below ten is printed as the decimal digit character of that value |
| Text.NatToString | trabfa/bscpp.hpp:187 | the decimal text of a natural number is non-empty and all digits, and it has no leading zero unless the number is 0 |
| Text.IntToString | trabfa/bscpp.hpp:187 | the decimal text of an integer is non-empty and starts with `-` exactly when the integer is negative |
| Text.NatToStringRoundTrip | trabfa/bscpp.hpp:187 | reading the digits of the rendered natural number gives the number back |
| Text.IntToStringRoundTrip | trabfa/bscpp.hpp:187 | parsing the rendered integer gives the integer back |
| Text.IntToStringInjective | trabfa/bscpp.hpp:187 | two integers with the same rendering are equal, so `repr` of integers loses nothing |
| Text.JoinAppend | trabfa/bscpp.hpp:385-390 | one more loop step of `repr_iter` appends the separator (none before the first item) and then the item |
| Text.JoinStep | trabfa/bscpp.hpp:386-390 | after a fixed opening, one more loop step of `repr_iter` turns the text for the first i items into the text for the first i + 1 |
| Text.JoinLength | trabfa/bscpp.hpp:385-390 | the joined text is as long as the items plus one separator between each pair |
| Values.Lookup | trabfa/bscpp.hpp:280 | `count(key)` fails exactly when no entry has the key; `at(key)` gives the value of an entry holding the key |
| Values.LookupOwnKey | trabfa/bscpp.hpp:279-280 | in a map with unique keys, looking up an entry's own key finds that entry's value |
| Values.CStringText | trabfa/bscpp.hpp:122-126 | the text a `std::string` or `std::string_view` reads from a char array is a prefix of the array, holds no NUL, and stops only at a NUL |
| Equality.IsEqIter | trabfa/bscpp.hpp:395-408 | the iterator walk returns true exactly when the sequences have the same length and are pairwise `is_eq` in order |
| Equality.IsEq | trabfa/bscpp.hpp:244-323 | values of different kinds are never `is_eq` (text-like values count as one kind), and `is_eq` containers and aggregates have the same number of items, entries or fields |
| Equality.ItemsEq | trabfa/bscpp.hpp:395-408 | the walk succeeds only on sequences of the same length, and always on two empty ones |
| Equality.EntriesEqFrom | trabfa/bscpp.hpp:279-284 | when the lookup loop succeeds from entry i on, every remaining key of the left map was found in the right map |
| Equality.SeqEqIff | trabfa/bscpp.hpp:249-271 | arrays, vectors and sets are `is_eq` exactly when they have the same size and are `is_eq` position by position, so a set is compared in iteration order |
| Equality.TextEqByContent | trabfa/bscpp.hpp:244-247 | a `std::string` against any text-like operand, or two C strings of different types, compare their characters, a char array being read up to its first NUL |
| Equality.CStringsEqByAddress | trabfa/bscpp.hpp:288-293 | two `const char*`, or two char arrays of one length, are `is_eq` exactly when their addresses are equal |
| Equality.SameTextDifferentArrays | trabfa/bscpp.hpp:288-293 | two distinct char arrays spelling the same text are not `is_eq`, though a `std::string` with that text is `is_eq` to each |
| Equality.CStringTextOfLiteral | trabfa/bscpp.hpp:244 | the text a `std::string` reads from a NUL-terminated literal is the literal's text |
| Equality.ItemsEqIff | trabfa/bscpp.hpp:395-408 | the walk the recursive `is_eq` uses holds exactly for equal lengths and pairwise `is_eq` items |
| Equality.FirstMismatch | trabfa/bscpp.hpp:400-403 | when equal-length sequences are not `is_eq_iter`-equal, there is a first position whose items differ, with every earlier pair `is_eq` |
| Equality.MapIsEq | trabfa/bscpp.hpp:273-285 | map `is_eq` returns true exactly when the sizes match and every key of the left map is in the right map with an `is_eq` value |
| Equality.EntriesEqIff | trabfa/bscpp.hpp:279-284 | the lookup loop from entry i on succeeds exactly when every remaining key is found with an `is_eq` value |
| Equality.MapEqIgnoresEntryOrder | trabfa/bscpp.hpp:273-285 | two right-hand maps of the same size with the same key-to-value lookup give the same map `is_eq` answer |
| Equality.StructEqIff | trabfa/bscpp.hpp:294-319 | aggregates with the same number of fields, standard-layout or not, are `is_eq` exactly when all fields are pairwise `is_eq` |
| Equality.ZeroFieldStructsEqual | trabfa/bscpp.hpp:294-295 | two aggregates without fields, standard-layout or not, are always `is_eq` |
| Equality.ScalarEq | trabfa/bscpp.hpp:292-293 | chars, integers, bools and enums are `is_eq` exactly when they are `==` |
| Equality.IsEqReflexive | trabfa/bscpp.hpp:244-323 | every value the header can compile is `is_eq` to itself |
| Equality.ItemsEqReflexive | trabfa/bscpp.hpp:395-408 | the iterator walk of a sequence against itself succeeds |
| Equality.EntriesEqReflexive | trabfa/bscpp.hpp:279-284 | the lookup loop of a map against its own entries succeeds from any entry on |
| Names.FindFrom | trabfa/bscpp.hpp:430-431 | the result is the first occurrence of the pattern at or after the start, and none is reported only when there is none |
| Names.RFindUpto | trabfa/bscpp.hpp:477 | the result is the last occurrence of the pattern at or before the bound, and none is reported only when there is none |
| Names.Find | trabfa/bscpp.hpp:430-431 | `find` gives `npos` or the first occurrence of the pattern, and, for a text shorter than `npos`, gives `npos` exactly when there is no occurrence |
| Names.RFind | trabfa/bscpp.hpp:477 | `rfind` gives `npos` or the last occurrence of the pattern, and, for a text shorter than `npos`, gives `npos` exactly when there is no occurrence |
| Names.SubStr | trabfa/bscpp.hpp:434 | `substr` fails exactly when the start lies past the end; otherwise it returns the text at the start, of length `count` or the rest of the text, whichever is shorter |
| Names.FindFirst | trabfa/bscpp.hpp:430-431 | `find` reports the first occurrence of the pattern |
| Names.Slice | trabfa/bscpp.hpp:430-434 | a slice of the signature is a piece of the signature, and, for a signature shorter than `npos`, one exists whenever the prefix occurs |
| Names.TypeNameSlice | trabfa/bscpp.hpp:430-434 | `type_name_` returns a piece of the signature, and, for a signature shorter than `npos`, returns one whenever the prefix occurs |
| Names.EnumMemberSlice | trabfa/bscpp.hpp:476-480 | `enum_name<T, E>` returns a piece of the signature, and, for a signature shorter than `npos`, returns one whenever the prefix occurs |
| Names.TypeNameSliceFound | trabfa/bscpp.hpp:430-434 | with the prefix found before the suffix, `type_name_` returns exactly the text between the first prefix and the first suffix |
| Names.TypeNameSliceMissingPrefix | trabfa/bscpp.hpp:430-434 | with no prefix, `npos + prefix.size()` wraps around and the slice starts at `prefix.size() - 1` |
| Names.EnumMemberSliceFound | trabfa/bscpp.hpp:476-480 | `enum_name<T, E>` returns exactly the text between the first prefix and the last suffix |
| Names.RemoveSpaces | trabfa/bscpp.hpp:455-456 | erasing the spaces leaves no space and never lengthens the name |
| Names.RemoveSpacesKeepsSpaceless | trabfa/bscpp.hpp:455-456 | a name without spaces is left as it is |
| Names.RemoveSpacesInPlace | trabfa/bscpp.hpp:455-456 | `std::remove` over the buffer leaves the space-free name in its first `len` cells |
| Names.ReplaceAll | trabfa/bscpp.hpp:449-452 | after the replace loop the name contains no occurrence of `string_type_name` |
| Names.TypeNameOf | trabfa/bscpp.hpp:439-458 | the name `type_name` returns has no space; for `std::string` it is `std::string`, and otherwise it is no longer than the name after the replace loop |
| Names.TypeName | trabfa/bscpp.hpp:439-458 | `type_name` returns the specified normalised name: no space, and for types other than `std::string` the replace loop leaves no `string_type_name` |
| Names.TypeNameNormalised | trabfa/bscpp.hpp:439-458 | the output of `type_name` has no `string_type_name` when that name contains a space, and none when the sliced name has no space |
| Names.ReplaceAllKeepsSpaceless | trabfa/bscpp.hpp:449-452 | replacing `string_type_name` by `std::string` in a name without spaces leaves a name without spaces |
| Names.TypeNameKeepsPlainName | trabfa/bscpp.hpp:446-457 | a sliced name without spaces and without `string_type_name` comes back unchanged |
| Names.EnumNameFrom | trabfa/bscpp.hpp:486-502 | trying candidates n to 10 gives `Type::Member` for the matching candidate and `?` when the raw value is outside them |
| Names.EnumName | trabfa/bscpp.hpp:483-503 | `enum_name(value)` is `Type::Member` for raw values 0 to 10 and `?` for any other |
| Repr.Braced | trabfa/bscpp.hpp:386-391 | a container body starts with `{` and ends with `}`, and an empty one is `{}` |
| Repr.IsCString | trabfa/bscpp.hpp:122-123 | a char array read as a C string has a NUL before its end |
| Repr.ContainerLabel | trabfa/bscpp.hpp:131-159 | a built-in array has no label; the label of every other container is non-empty, starts with `std::` and ends with `> ` |
| Repr.CharRepr | trabfa/bscpp.hpp:182-184 | a character renders as three characters with the character in the middle |
| Repr.CharReprs | trabfa/bscpp.hpp:119-128 | a char array without its terminating NUL renders character by character |
| Repr.Repr | trabfa/bscpp.hpp:119-239 | a rendering is never empty; its shape for each kind is stated by the lemmas below |
| Repr.Reprs | trabfa/bscpp.hpp:387-388 | one rendering per item |
| Repr.EntryReprs | trabfa/bscpp.hpp:167-168 | one rendering per map entry |
| Repr.ReprsAt | trabfa/bscpp.hpp:387-388 | item k of the renderings is the `repr` of item k |
| Repr.EntryReprsAt | trabfa/bscpp.hpp:167-168 | entry k of the renderings is map entry k written as `{key, value}` |
| Repr.EntryReprBraced | trabfa/bscpp.hpp:168 | a map entry is written between braces, the key's `repr` first |
| Repr.ReprIter | trabfa/bscpp.hpp:381-393 | `repr_iter` returns `{`, the item renderings joined by `, `, then `}`; an empty container gives `{}` |
| Repr.ReprMap | trabfa/bscpp.hpp:161-173 | map `repr` returns the header `std::map<K, V> ` and the entries rendered as `{key, value}` and joined by `, `; an empty map gives `std::map<K, V> {}` |
| Repr.MapReprShape | trabfa/bscpp.hpp:161-173 | a map renders as its type header followed by the braced, comma-joined entry renderings |
| Repr.SeqReprShape | trabfa/bscpp.hpp:131-159 | `std::array`, `std::vector` and `std::set` render as their type label, with the size for arrays, followed by the `repr_iter` body |
| Repr.EmptyContainerRepr | trabfa/bscpp.hpp:131-173 | empty standard containers render as their label followed by `{}`, and an empty map as its type header followed by `{}` |
| Repr.StrRepr | trabfa/bscpp.hpp:188-190 | text renders as `"` + text + `"`, without escaping |
| Repr.ScalarReprShape | trabfa/bscpp.hpp:180-187 | a char renders between single quotes, an integer as its decimal text, a bool as `true` or `false` |
| Repr.EnumReprShape | trabfa/bscpp.hpp:191-192 | an enumerator renders as `Type::Member` for raw values 0 to 10 and as `?` otherwise |
| Repr.StructReprShape | trabfa/bscpp.hpp:193-234 | a standard-layout aggregate renders as its type name, a space, then its fields' renderings braced and separated by `, ` |
| Repr.OpaqueReprShape | trabfa/bscpp.hpp:235-236 | a type that is not standard-layout renders as its type name followed by ` {...}`, whatever its fields |
| Repr.CStringLiteralRepr | trabfa/bscpp.hpp:119-129 | a NUL-terminated char array, and a `const char*`, render like the `std::string` they spell |
| Repr.CharArrayRepr | trabfa/bscpp.hpp:119-128 | a char array that does not end in a NUL renders as its characters in braces |
| Repr.UnescapedTextIsAmbiguous | trabfa/bscpp.hpp:188-190 | two vectors that are not `is_eq` can render identically, because quotes inside text are not escaped |
| Repr.ReprsOfStrs | trabfa/bscpp.hpp:188-190 | a vector of one or two texts renders item by item as the quoted texts |
| Repr.QuotesJoined | trabfa/bscpp.hpp:188-190 | the quoted text `a", "b` reads the same as the quoted `a` and `b` joined by `, ` |
| Repr.IsEqChar | trabfa/bscpp.hpp:292-293 | a char is `is_eq` only to the same char |
| Repr.IsEqImpliesSameRepr | trabfa/bscpp.hpp:175-323 | two values of the same static type that are `is_eq` have the same `repr` |
| Repr.TextIsEqImpliesSameRepr | trabfa/bscpp.hpp:119-129 | text operands of different types that are `is_eq` have the same `repr` when every char array among them ends in its NUL |
| Repr.UnterminatedArrayReprDiffers | trabfa/bscpp.hpp:119-128 | `std::string("ab")` is `is_eq` to the array `{'a', 'b', '\0', 'c'}`, yet the two render differently, since the array does not end in its NUL |
| Repr.ItemsSameRepr | trabfa/bscpp.hpp:381-408 | pairwise `is_eq` items of the same type render item by item identically |
| Repr.EntriesSameRepr | trabfa/bscpp.hpp:161-173 | maps of the same type whose entries agree render their entries identically |
| Harness.Recorded | trabfa/bscpp.hpp:344-379 | one check adds at most one failure record |
| Harness.RecordedWhen | trabfa/bscpp.hpp:347-365 | `check_equal` records a failure exactly when the types are incomparable or `is_eq` is false, with the "cannot compare values of types" text or the "left :"/"right:" text respectively; `_check_within` records one exactly when the tolerance is exceeded |
| Harness.LocationText | trabfa/bscpp.hpp:351 | the location line of a record starts with two spaces and ends with a colon and a newline |
| Harness.MismatchTextShape | trabfa/bscpp.hpp:350-354 | a mismatch record is the location line followed by the `left :` line, and it ends a line |
| Harness.IncomparableTextShape | trabfa/bscpp.hpp:357-364 | an incomparable-types record is the location line followed by the `cannot compare values of types` line, and it ends a line |
| Harness.WithinTextShape | trabfa/bscpp.hpp:372-377 | a tolerance record is the location line followed by the `the absolute difference in not within` line, and it ends a line |
| Harness.RecordKindsDiffer | trabfa/bscpp.hpp:350-377 | at one location, the three kinds of failure record are distinct texts |
| Harness.Failures | trabfa/bscpp.hpp:354 | a run of checks never adds more failure records than it has checks |
| Harness.FailuresSnoc | trabfa/bscpp.hpp:354 | one more check appends its own record, if any, at the end |
| Harness.FailuresAppend | trabfa/bscpp.hpp:354 | failure records are appended in the order the checks run |
| Harness.FailuresAppendStep | trabfa/bscpp.hpp:354 | if the records of two stretches of checks follow one another, they still do after one more check |
| Harness.FailuresSnocOne | trabfa/bscpp.hpp:354 | one check after a stretch appends its record to the stretch's records |
| Harness.ChecksAppendWellFormed | trabfa/bscpp.hpp:80-82 | two stretches of checks that can run make a stretch that can run |
| Harness.AllChecks | trabfa/bscpp.hpp:80-82 | no registered examples means no checks |
| Harness.CheckCount | trabfa/bscpp.hpp:80-82 | the checks counted example by example are all the checks of the registered examples |
| Harness.ExampleFailures | trabfa/bscpp.hpp:80-82 | running the examples never yields more failure records than checks |
| Harness.ExampleFailuresSnoc | trabfa/bscpp.hpp:80-82 | running one more example adds its checks to the count and its failure records at the end |
| Harness.ExampleFailuresFlat | trabfa/bscpp.hpp:80-82 | running the examples one by one records the same failures, in the same order, as running all their checks in one stretch |
| Harness.TestState.constructor | trabfa/bscpp.hpp:63-65 | before anything is registered the registry is null, the counter is 0 and there are no failures |
| Harness.Registry.constructor | trabfa/bscpp.hpp:69-72 | a newly allocated registry holds no examples |
| Harness.TestState.RegisterExample | trabfa/bscpp.hpp:67-73 | the registry is created when it is null; the new example is appended last, earlier entries are unchanged, and the counter and failures are untouched |
| Harness.TestState.CheckEqual | trabfa/bscpp.hpp:344-366 | `num_checks` grows by exactly 1 modulo 2^32; the failures grow by exactly the record of this check; `failures.size() <= num_checks` holds until the counter wraps |
| Harness.TestState.CheckWithin | trabfa/bscpp.hpp:368-379 | the same bookkeeping for `_check_within`: one count, at most one record |
| Harness.TestState.RunCheck | trabfa/bscpp.hpp:344-379 | one check of an example body, `check_expect` or `check_within`, adds one to the count and appends its record |
| Harness.TestState.RunExample | trabfa/bscpp.hpp:80-82 | running one example body performs its checks in order |
| Harness.TestState.RunTests | trabfa/bscpp.hpp:76-96 | `run_tests` runs every registered example in order; the counter grows by the number of checks modulo 2^32; the failures grow by their records in order; the passed tally is `num_checks - failures.size()` in `size_t` arithmetic, which is exact before the counter wraps |
| Harness.PassedWithoutWrap | trabfa/bscpp.hpp:90 | before `num_checks` wraps, the printed tally is the number of checks without a failure record |
| Harness.CounterWraps | trabfa/bscpp.hpp:65 | counting modulo 2^32 one check at a time equals counting all of them modulo 2^32 |
| Exercises.Filter | trabfa/trab2fa.cpp:31-42 | a bucket holds only names of its length class and never more names than the input |
| Exercises.ReorganizaNomes | trabfa/trab2fa.cpp:17-61 | the result is the short names, then the medium names, then the long names, each bucket in input order |
| Exercises.SizeClasses | trabfa/trab2fa.cpp:33-41 | a name of at most 3 bytes is short, one of 4 to 8 bytes is medium, and a longer one is long |
| Exercises.Reorganized | trabfa/trab2fa.cpp:17-61 | the reorganised vector has as many names as the input |
| Exercises.GroupSizes | trabfa/trab2fa.cpp:31-42 | the three groups together are as long as the input |
| Exercises.FilterAppend | trabfa/trab2fa.cpp:31-42 | bucketing a concatenation buckets each part |
| Exercises.FilterSnocName | trabfa/trab2fa.cpp:33-41 | one more name at the end joins the end of its own bucket and no other |
| Exercises.GroupsPartition | trabfa/trab2fa.cpp:31-42 | the three buckets together hold each name exactly as often as the input does |
| Exercises.ReorganizedPermutation | trabfa/trab2fa.cpp:31-57 | the output has the input's length and is a permutation of it |
| Exercises.FilterOfFilter | trabfa/trab2fa.cpp:44-57 | re-bucketing a bucket keeps it for its own class and empties it for the others |
| Exercises.ReorganizedStable | trabfa/trab2fa.cpp:31-57 | within each length class the output keeps the input order |
| Exercises.ReorganizedStableIn | trabfa/trab2fa.cpp:31-57 | stability for one length class |
| Exercises.GroupsRegrouped | trabfa/trab2fa.cpp:44-57 | taking one group of the three groups laid end to end gives that group back |
| Exercises.RegroupedParts | trabfa/trab2fa.cpp:44-57 | each group, filtered again by one length class, is kept for its own class and emptied for the others |
| Exercises.ReorganizedGrouped | trabfa/trab2fa.cpp:33-57 | every name of length up to 3 precedes every name of length 4 to 8, which precedes every longer name |
| Exercises.ReorganizedIdempotent | trabfa/trab2fa.cpp:17-61 | reorganising an already reorganised vector changes nothing |
| Exercises.ThreeMediumNames | trabfa/trab2fa.cpp:65-67 | "Maria", "Joao" and "Pedro" all fall in the medium bucket |
| Exercises.ReorganizedFirstExample | trabfa/trab2fa.cpp:65 | {"Maria","Joao","Pedro","Ash"} becomes {"Ash","Maria","Joao","Pedro"} |
| Exercises.ReorganizedSecondExample | trabfa/trab2fa.cpp:66 | {"Maria","Joao","Pedro","Joao Vassallo"} is unchanged |
| Exercises.ReorganizedThirdExample | trabfa/trab2fa.cpp:67 | {"Maria","Joao","Pedro","Ash","Joao Vassallo"} becomes {"Ash","Maria","Joao","Pedro","Joao Vassallo"} |
| Exercises.ReorganizedEmptyExample | trabfa/trab2fa.cpp:26-29 | empty input gives empty output |
| Exercises.SomeEqualPairIffNonEmpty | trabfa/trab2fa.cpp:83-91 | the nested loops find two positions with equal numbers exactly when the vector is non-empty, since each position matches itself |
| Exercises.NumUnicos | trabfa/trab2fa.cpp:77-96 | `num_unicos` as written returns true exactly for the empty vector |
| Exercises.NumUnicosCorrected | trabfa/trab2fa.cpp:77-96 | with the self-comparison skipped, the result is true exactly when all numbers are distinct |
| Exercises.NumUnicosFirstExampleFails | trabfa/trab2fa.cpp:100 | {1,2,3,4,5,6} is distinct and non-empty, so the as-written function answers false where the test expects true |
| Exercises.NumUnicosCorrectedExamples | trabfa/trab2fa.cpp:100-102 | the corrected function agrees with all three tests |

## Left out

- Printing. `run_tests` prints a version banner, the counts and the failure texts to standard output. The model keeps only the state and the tally `num_checks - failures.size()` it prints.
- Compiler signatures. The text of `__PRETTY_FUNCTION__` / `__FUNCSIG__` and the per-compiler choice of prefix and suffix are not visible. The slicing functions take the signature, prefix and suffix as parameters. `Value` carries the `type_name<T>()` labels already resolved, and carries an enum's eleven `enum_name<T, n>()` texts.
- Compile-time probing. `has_is_eq`, `num_members`, `size_` and `tag` become data:
  - a `comparable` flag on each `check_expect`;
  - the field list of an aggregate.
  An aggregate with more than six fields does not compile: `num_members` still answers 6, and the six-name structured binding fails. So `WellFormed` limits aggregates to six fields, and the "too many fields" branch of `repr` is unreachable.
- Floating point. `approx_eq`, the float branches of `repr` and `is_eq`, and `ostream` number formatting are left out. `Value` has no floating-point case. `_check_within` takes the outcome of `approx_eq` as a boolean and the three printed numbers as text.
- Character types. `Int` stands for the integral types printed as numbers. `signed char` and `unsigned char`, which `ostream` prints as characters without quotes, are left out, and so is `std::vector<bool>`'s proxy iteration.
- Sets. `std::set` is a sequence in its iteration order, and `is_eq` compares sets position by position in that order (`Equality.SeqEqIff`). Keeping that order sorted is up to the caller of the model and is not checked here.
- Built-in arrays. The header has no `is_eq` overload for built-in arrays, so they reach the default one. For two `char` arrays of one length, and for two `const char*`, `lhs == rhs` compares addresses, and the model does the same. An array of any other element type is an aggregate: the default `is_eq` compares it element by element when it has at most six elements, which the model does with `is_eq_iter`, as it does for `std::array`. Comparing an array of seven or more elements does not compile.
- Kind mismatches. `is_eq` between values of different kinds is false, since in C++ the type system rules such calls out. The exception is text: a `std::string`, a `const char*` and a `char` array of any length are one kind, because the `std::string` overload accepts any two of them. A `std::string_view` takes part only against another `std::string_view`: it does not convert implicitly to `std::string`, so against any other text type no `is_eq` applies and the check is recorded as comparing incomparable types. `Str` stands for both types, and a pair of this kind is marked not comparable on the check, not by `IsEq`.
- Equality.IsEq: the model does not reject arrays of more than six elements, which do not compile with `is_eq`. A `char` array without a terminating NUL that is converted to `std::string` is read up to its end; the C++ conversion would read past it. Aggregates whose structured binding does not compile are not modelled.
- Static registration. `__attribute__((constructor))`, `__COUNTER__` and the `examples` macros are left out. So are the test bodies, which are arbitrary client code: each example is the sequence of checks it performs.
- `trab2fa.cpp`'s `main` is left out.
- Strings are sequences of `char`, one per byte as `length()` counts them; there is no encoding.
- Harness.TestState.RunTests: requires a non-null registry. The header dereferences `exs` without a check, so `run_tests` with nothing registered is undefined behaviour.
- Names.TypeName: requires `string_type_name` to be longer than `"std::string"`, which holds on every supported compiler. Otherwise the replace loop need not terminate.
- Names.TypeNameNormalised: the absence of `string_type_name` in the result is proved only in two cases: when that name contains a space, or when the sliced name has none. Otherwise, removing spaces after the replace loop could join two pieces into a new occurrence. The replace loop itself leaves no occurrence in any case (`Names.ReplaceAll`).
- Repr.Repr: its own contract says only that the text is non-empty. Its shape per kind is stated by `ScalarReprShape` (chars, integers, bools), `StrRepr` and `CStringLiteralRepr` (text), `CharArrayRepr` (char arrays without a NUL at the end), `EnumReprShape`, `SeqReprShape`, `MapReprShape`, `EmptyContainerRepr`, `StructReprShape` and `OpaqueReprShape`, and by the loops `ReprIter` and `ReprMap`.
- Repr.Reprs: its own contract gives only the number of renderings; what each one is, is stated by `ReprsAt`.
- Repr.EntryReprs: its own contract gives only the number of renderings; what each one is, is stated by `EntryReprsAt`.
- Harness.Location: carries no contract of its own; its shape is stated by `LocationText`.
- Harness.MismatchText: carries no contract of its own; its shape is stated by `MismatchTextShape` and `RecordKindsDiffer`.
- Harness.IncomparableText: carries no contract of its own; its shape is stated by `IncomparableTextShape` and `RecordKindsDiffer`.
- Harness.WithinText: carries no contract of its own; its shape is stated by `WithinTextShape` and `RecordKindsDiffer`.
- Repr.EntryRepr: carries no contract of its own; the braced `{key, value}` text it computes is stated by `EntryReprBraced` and `EntryReprsAt`.
- Exercises.SizeOf: carries no contract of its own; the three length classes are stated by `SizeClasses`.
- Text.Join: carries no contract of its own; the joined text is stated by `JoinAppend`, `JoinStep` and `JoinLength`.
- Equality.TextEq: this predicate, the text dispatch of `is_eq`, carries no contract of its own; its two rules are stated by `TextEqByContent` (the `std::string` overload compares characters) and `CStringsEqByAddress` (two pointers, or two char arrays of one length, compare addresses).
- Repr.IsEqImpliesSameRepr: stated for values of the same static type (`Aligned`). Text pairs of different types, which the `std::string` overload of `is_eq` also compares, are left out of it because a char array that does not end in a NUL renders element by element, while `is_eq` reads it only up to its first NUL (`Repr.UnterminatedArrayReprDiffers`). For text pairs whose char arrays all end in a NUL, `Repr.TextIsEqImpliesSameRepr` states the agreement.

## Findings

| source | as written | input that shows it | evidently intended | confidence | as-written member | corrected member |
|---|---|---|---|---|---|---|
| trabfa/trab2fa.cpp:83-91 | both loops range over every index, so `numeros[i] == numeros[j]` also holds for `j == i` and the result is false for every non-empty vector | `{1, 2, 3, 4, 5, 6}`; the test at trabfa/trab2fa.cpp:100 expects true | compare only distinct positions, so that the result is true exactly when all numbers are distinct | not executed | Exercises.NumUnicos, Exercises.NumUnicosFirstExampleFails | Exercises.NumUnicosCorrected |
