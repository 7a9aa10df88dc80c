# keysort tuple sort, modelled in Dafny

keysort is a small Go library. It sorts a slice by a key function instead of by a less function. Its tuple variant has three entry points: `Tuple`, `TupleStable` and `TupleIsSorted`. Each takes a key function that returns a tuple (a `[]interface{}`) for each element. Each hands Go's `sort.Slice`, `sort.SliceStable` or `sort.SliceIsSorted` the callback `sliceLess(key(i), key(j))`.

`sliceLess` compares two tuples lexicographically:
- Tuples of different lengths panic.
- Otherwise it scans the components in order. At each index it asks `interfaceLess` first and then `interfaceEq`. The first "less" gives true and the first "not equal" gives false.
- Tuples that never differ are not less.

`interfaceLess` and `interfaceEq` dispatch on the dynamic type of their first operand:
- They cover strings, every signed and unsigned integer width and both float widths.
- `interfaceEq` also covers `bool`.
- The second operand is type-asserted to the first one's type. A mismatch panics, and so does any other type.

## How the model is organised

- `go_values.dfy` (`GoValues`): the values a key component can hold.
  - One constructor per Go type of the type switch, plus `Unsupported`. Integers are range-constrained to their Go width.
  - Strings are byte sequences. Their order `BytesLess` is Go's bytewise `<`, proved equal to the textbook lexicographic order.
  - Floats are `NaN | NegInf | Finite(real) | PosInf`, which is enough for IEEE `<` and `==`.
- `decimal.dfy` (`Decimal`): `%d` rendering of a length, with its inverse.
- `faults.dfy` (`Faults`): panics as values. `Result<T>` is `Ok(value)` or `Panic(reason)`. `Outcome` is the result of a sort, which only panics or completes. `Message` gives the text of each panic.
- `comparator.dfy` (`Comparator`): `InterfaceLess`, `InterfaceEq`, and `SliceLess` with its scan `ScanFrom`.
  - `SliceLess`'s contract says which index decides. It is the first index where the components are not the same orderable, non-NaN value (`StopIndex`). The result is `interfaceLess` there, or false if there is no such index.
- `tuple_order.dfy` (`TupleOrder`): what `sliceLess` promises.
  - Where it panics, and that nothing after the deciding index matters.
  - That it is asymmetric, and irreflexive on orderable tuples.
  - That on tuples of strings and integers typed alike column by column (`Conforms` to a schema) it is a strict total order.
- `sort_slice.dfy` (`SortSlice`): the three `sort` functions over an array, driven by a `less` callback that may panic.
  - `IsSortedBy` scans neighbours from the end, as `sort.SliceIsSorted` does.
  - `StableSortBy` is an insertion sort by neighbour swaps. It records a ghost permutation, and its contract states stability through that permutation.
  - `SortBy` promises everything except stability.
  - `StrictWeakOrderOn` is what Go's sorts need of the callback to promise a sorted result. The insertion sort here needs only asymmetry, so its contracts hold for callbacks Go makes no promise about (see "## Left out").
- `tuple_sort.dfy` (`TupleSort`): the entry points, i.e. the `sort` functions with `KeyLess(key)`, which is `sliceLess` of the two keys. It also holds the lemmas about sorted slices with well-typed keys.
- `scenarios.dfy` (`Scenarios`): the repository's test of `Tuple` and `TupleIsSorted`, plus one concrete input for each kind of panic and for short-circuiting.

The key function is a function of an element's value, not of its index. Go's test keys read `slice[i]` at the time of the call, so a key follows its element as the sort moves it.

## Model

| member | source | states |
|---|---|---|
| GoValues.BytesLess | tuplesort.go:56-58 | Go's `<` on strings: a string is never less than itself, a proper prefix is less than the string it begins, and a string is never less than its own prefix |
| GoValues.BytesLessIsLexPrecedes | tuplesort.go:56-58 | Go's `<` on strings holds exactly when, at the first differing byte, the first string's byte is smaller, or the first string is a proper prefix of the second |
| GoValues.BytesLessIrreflexive | tuplesort.go:56-58 | no string is less than itself |
| GoValues.BytesLessAsymmetric | tuplesort.go:56-58 | two strings are never less than each other both ways |
| GoValues.BytesLessTransitive | tuplesort.go:56-58 | string `<` is transitive |
| GoValues.BytesLessConnected | tuplesort.go:56-58 | of two different strings, one is less than the other |
| GoValues.FloatLess | tuplesort.go:89-94 | IEEE `<`: false whenever either side is NaN, never true of equal values, never true with +Inf on the left or -Inf on the right |
| GoValues.FloatLessOrder | tuplesort.go:89-94 | off NaN, float `<` is asymmetric, transitive and total on distinct values |
| GoValues.FloatEq | tuplesort.go:139-144 | IEEE `==`: true only of equal values, which then are neither less than the other; an equal pair is equal exactly when it is not NaN |
| GoValues.TypeName | tuplesort.go:96 | the `%T` name of a kind is one of the built-in names exactly when the kind is one the type switches have a case for, so a panic never names a supported type for an unsupported one |
| GoValues.TypeNameInjective | tuplesort.go:96 | different kinds have different `%T` names, so a panic message names the kind exactly |
| Decimal.Format | tuplesort.go:39 | `%d` of a length is a non-empty string of decimal digits |
| Decimal.DigitValue | tuplesort.go:39 | reading a digit character back gives the digit that renders as it |
| Decimal.ParseFormat | tuplesort.go:39 | the `%d` rendering of a length reads back as that length |
| Decimal.FormatInjective | tuplesort.go:39 | different lengths render differently |
| Faults.Message | tuplesort.go:39 | each panic's text: the length-mismatch text and the unsupported-type text of the comparator, and the Go runtime's text of a failed assertion, each opening with its own words, so the first character tells the kind of panic |
| Faults.UnsupportedMessageNamesType | tuplesort.go:96 | the unsupported-type message names the type: different names give different messages |
| Faults.MismatchMessageNamesLengths | tuplesort.go:39 | two length-mismatch panic messages are equal only if both lengths agree, so the message determines both lengths |
| Comparator.InterfaceLess | tuplesort.go:54-98 | the result is `Ok` exactly when the first operand is a string, integer or float and the second has the same dynamic type. Otherwise: a bool or any other type gives the unsupported-type panic naming it; a mismatched second operand gives the type-assertion panic naming both types. The value is bytewise `<` on strings, numeric `<` on integers of each width, and IEEE `<` on floats |
| Comparator.InterfaceEq | tuplesort.go:101-148 | the result is `Ok` exactly when the first operand has a supported type (bool included) and the second has the same type, with the same two panics otherwise. The value is true exactly when the operands are identical and not NaN |
| Comparator.StopIndexAt | tuplesort.go:42-50 | the index where the scan stops is unique: it is the first index past which the scan does not go |
| Comparator.ScanFrom | tuplesort.go:42-50 | the loop from index i returns `interfaceLess`'s verdict, panic included, at the first index from i on whose components are not the same orderable non-NaN value; it returns false if there is none |
| Comparator.SliceLess | tuplesort.go:37-51 | tuples of different lengths panic with both lengths; equal-length tuples give `interfaceLess` at the first index where the scan stops, or false |
| Comparator.LessIrreflexive | tuplesort.go:54-94 | an orderable component is not less than itself |
| Comparator.LessAsymmetric | tuplesort.go:54-94 | `interfaceLess` never says true both ways, whatever the types |
| Comparator.LessTransitive | tuplesort.go:54-94 | `interfaceLess` is transitive where it says true |
| Comparator.LessConnected | tuplesort.go:54-88 | of two different strings, or two different integers of one type, one is less than the other |
| TupleOrder.LengthMismatchPanics | tuplesort.go:38-40 | tuples of different lengths panic with the message naming both lengths in decimal |
| TupleOrder.ReachedUnorderablePanics | tuplesort.go:95-96 | a component the scan reaches whose type `interfaceLess` lacks panics as unsupported; this includes two equal booleans, so `interfaceEq`'s bool case is never reached from `sliceLess` |
| TupleOrder.ReachedMismatchPanics | tuplesort.go:55-61 | a component the scan reaches whose counterpart has another type panics through the type assertion |
| TupleOrder.DecidedAt | tuplesort.go:42-48 | once the scan has passed all earlier indices and stops at k, `interfaceLess` at k is the result |
| TupleOrder.AllEqualNotLess | tuplesort.go:42-50 | tuples whose components are all the same orderable non-NaN values are not less |
| TupleOrder.FirstDifferenceDecides | tuplesort.go:42-48 | at the first index where the tuples differ, with orderable non-NaN components before it, `interfaceLess` decides |
| TupleOrder.SuffixIgnored | tuplesort.go:42-48 | components after the deciding index are never looked at: replacing them, with mismatched types even, changes nothing |
| TupleOrder.SliceLessIrreflexive | tuplesort.go:42-50 | a tuple of orderable components is not less than itself, NaN and the empty tuple included |
| TupleOrder.SliceLessAsymmetric | tuplesort.go:37-51 | `sliceLess` never says true both ways |
| TupleOrder.NaNTuplesUnordered | tuplesort.go:89-94 | two different tuples with NaN in front are neither less than the other, so floats break the total order |
| TupleOrder.ConformingContinues | tuplesort.go:43-48 | on tuples of one schema the scan passes an index exactly when the components there are equal |
| TupleOrder.ConformingNeverPanics | tuplesort.go:37-51 | tuples of one schema compare without panicking |
| TupleOrder.SliceLessTransitive | tuplesort.go:37-51 | on tuples of one schema `sliceLess` is transitive |
| TupleOrder.SliceLessConnected | tuplesort.go:37-51 | of two different tuples of one schema, one is less than the other |
| TupleOrder.SliceLessTrichotomous | tuplesort.go:37-51 | on tuples of one schema exactly one of less, equal and greater holds |
| TupleOrder.NotLessTransitive | tuplesort.go:37-51 | on tuples of one schema "not less" is transitive |
| SortSlice.SortedTail | tuplesort.go:31-35 | dropping the first element keeps a slice sorted |
| SortSlice.RearrangesMultiset | tuplesort.go:18-29 | a rearrangement by an index permutation keeps the multiset of elements |
| SortSlice.Swap | tuplesort.go:18-29 | exchanging two neighbours changes only those two positions and keeps the multiset |
| SortSlice.SwapKeepsTracking | tuplesort.go:24-29 | swapping a strictly smaller element in front of its neighbour keeps the permutation and adds only a strict inversion |
| SortSlice.SwapKeepsInserting | tuplesort.go:24-29 | one step of an insertion keeps every other neighbour pair in order |
| SortSlice.IsSortedBy | tuplesort.go:31-35 | `sort.SliceIsSorted`: true exactly when no element is less than its predecessor. Otherwise it gives false, or the comparison's panic, from the last index that fails, with everything after it in order |
| SortSlice.InsertAt | tuplesort.go:24-29 | one insertion pass: the slice stays a permutation of the original with only strict inversions. Unless a comparison panics, the prefix up to i is in order; a panic comes from comparing two original elements; an element already in order moves nothing |
| SortSlice.StableSortBy | tuplesort.go:24-29 | `sort.SliceStable`: the result is a permutation of the input and, unless it panics, sorted. Elements out of their original order compare strictly less, so ties keep their order. A panic comes from some pair of input elements, no panic happens when every pair compares, and a sorted input stays as it is |
| SortSlice.SortBy | tuplesort.go:18-22 | `sort.Slice`: a permutation of the input and, unless it panics, sorted. A panic comes from some pair of input elements, and no panic happens when every pair compares |
| TupleSort.KeyLess | tuplesort.go:19-21 | the callback Go's sort is given: `sliceLess` of the two elements' keys. Its asymmetry is stated by `KeyLessAsymmetric` |
| TupleSort.KeyLessAsymmetric | tuplesort.go:19-21 | `sliceLess` of the keys is asymmetric, as Go's sort needs of its callback |
| TupleSort.TupleIsSorted | tuplesort.go:31-35 | true exactly when no element's key is less than its predecessor's. Otherwise false, or the panic, at the last neighbour pair out of order |
| TupleSort.TupleStable | tuplesort.go:24-29 | a permutation of the input. Unless a key comparison panics, sorted by key, with equal-keyed elements in their input order. No panic when all keys compare |
| TupleSort.Tuple | tuplesort.go:18-22 | a permutation of the input and, unless a key comparison panics, sorted by key. No panic when all keys compare |
| TupleSort.EqualKeysKeepOrder | tuplesort.go:24-29 | after a stable sort, two elements with equal orderable keys are in their input order |
| TupleSort.ConformingKeysComparable | tuplesort.go:16-17 | keys of one schema of strings and integers never panic, so the sorts do not |
| TupleSort.ConformingKeysStrictWeakOrder | tuplesort.go:16-17 | keys of one schema of strings and integers make `sliceLess` a strict weak order: no panic, never less both ways, nothing less than itself, and "not less" transitive. Only for such a callback does Go's sort promise a sorted result |
| TupleSort.SortedKeysAscend | tuplesort.go:31-35 | in a slice sorted by keys of one schema, no key is less than any key before it, neighbour or not |
| TupleSort.SortedHeadsAgree | tuplesort.go:18-22 | two sorted arrangements of one multiset with distinct keys of one schema start alike |
| TupleSort.SortedArrangementUnique | tuplesort.go:12 | with distinct keys of one schema there is only one sorted arrangement, so the result of the unstable `Tuple` is determined |
| Scenarios.ByStringThenInt | keysort_test.go:91-96 | the test's first key has the schema (string, int) |
| Scenarios.ByIntThenString | keysort_test.go:98-103 | the test's second key has the schema (int, string) |
| Scenarios.SameRecords | keysort_test.go:72-141 | the initial slice and both expected slices hold the same records |
| Scenarios.KeysWellTyped | keysort_test.go:91-103 | the test's two keys have a fixed schema, tell every two records apart and never panic |
| Scenarios.KeysDecideAt | keysort_test.go:91-103 | with either test key, the first column where two records differ decides |
| Scenarios.InitialUnsorted | keysort_test.go:144-146 | the test's initial slice is sorted by neither key |
| Scenarios.ByStringExpectedSorted | keysort_test.go:105-122 | the expected (string, int) order is sorted by that key and not by the other |
| Scenarios.ByIntExpectedSorted | keysort_test.go:124-141 | the expected (int, string) order is sorted by that key and not by the other |
| Scenarios.SortedByStringIsExpected | keysort_test.go:148-150 | any sorted rearrangement of the initial slice by (string, int) is the expected one |
| Scenarios.SortedByIntIsExpected | keysort_test.go:154-156 | any sorted rearrangement of that by (int, string) is the expected one |
| Scenarios.CheckInitial | keysort_test.go:144-146 | before sorting, `TupleIsSorted` returns false for both keys |
| Scenarios.CheckSorted | tuplesort.go:31-35 | when no key comparison can panic, `TupleIsSorted` returns exactly whether the slice is sorted |
| Scenarios.SortByString | keysort_test.go:148-152 | `Tuple` by (string, int) gives the expected slice, which `TupleIsSorted` reports sorted by that key and not by the other |
| Scenarios.SortByInt | keysort_test.go:154-158 | `Tuple` by (int, string) gives the expected slice, which `TupleIsSorted` reports sorted by that key and not by the other |
| Scenarios.TupleExample | keysort_test.go:144-158 | the whole test: unsorted by both keys at first, then each sort gives its expected slice, with `TupleIsSorted` true for its own key only |
| Scenarios.LengthMismatchExample | tuplesort.go:38-40 | keys of lengths 1 and 2 panic with "… mismatched lengths: 1 vs 2" |
| Scenarios.BoolExample | tuplesort.go:43-44 | two equal booleans panic as unsupported |
| Scenarios.TypeMismatchExample | tuplesort.go:56-57 | a string against an int fails the type assertion |
| Scenarios.ShortCircuitExample | tuplesort.go:43-45 | a decision in the first column hides a type mismatch in the second |
| Scenarios.UnsupportedMessageExample | tuplesort.go:96 | the text of the panic for a boolean is "unsupported type bool provided by key function" |
| Scenarios.AssertionMessageExample | tuplesort.go:56-57 | the text of the panic for an int met where a string is asserted is "interface conversion: interface {} is int, not string" |
| Scenarios.NaNKeysNotStrictWeakOrder | tuplesort.go:89-94 | keys (1, 5), (1, NaN) and (1, 3) as floats: the NaN key is unordered with both others, yet (1, 3) is less than (1, 5). So `sliceLess` on float keys need not be a strict weak order |

## Left out

- keysort.go, the single-key variants: each is a one-line adapter of `key(i) < key(j)` into the same `sort` functions, and the `Float64` ones are floating point. keysort.go is not part of this model.
- The algorithms of Go's `sort.Slice` and `sort.SliceStable`: an insertion sort by neighbour swaps stands in for both. For a callback that is a strict weak order on the slice (`StrictWeakOrderOn`, which `ConformingKeysStrictWeakOrder` establishes for keys of one schema), Go's sorts promise the same completed result: sorted, and for `SliceStable` stable.
- SortSlice.SortBy: when `less` is not a strict weak order on the slice, the promise that a completed sort is sorted comes from the insertion sort, not from Go. Go's pattern-defeating quicksort can complete with neighbours out of order, and `NaNKeysNotStrictWeakOrder` shows keys where that can happen.
- SortSlice.StableSortBy: when `less` is not a strict weak order on the slice, three promises come from the insertion sort, not from Go's `SliceStable`: that a completed sort is sorted, that it is stable, and that a sorted input stays as it is.
- TupleSort.Tuple: on keys where `sliceLess` is not a strict weak order, such as floats with a NaN after the first column, its sortedness promise holds of the model but not necessarily of Go.
- TupleSort.TupleStable: on keys where `sliceLess` is not a strict weak order, its promises of sortedness, stability and leaving a sorted input unchanged hold of the model but not necessarily of Go.
- SortSlice.StableSortBy: when a comparison panics, a different algorithm would stop after a different sequence of comparisons. The contract says only that the panic comes from some pair of input elements, not which pair, and what the slice holds at that point is only a permutation of the input.
- TupleSort.Tuple: its contract is deliberately weaker than TupleStable's. It omits stability and the already-sorted-stays-unchanged property, because Go's `sort.Slice` promises neither.
- The "not a slice" panic of `sort.Slice` on an `interface{}` argument: an array of elements of one type cannot be anything else.
- The wording of the Go runtime's type-assertion panic ("interface conversion: …"): `Message` gives a close approximation, and no property rests on it. The comparator's own two messages are modelled exactly.
- Floating point beyond comparison: values are `NaN`, the two infinities or a real number. Rounding, the two zeros as distinct bit patterns, and the distinction between float32 and float64 precision are not modelled. The order lemmas exclude floats, and `NaNTuplesUnordered` shows why.
- Go's `int` and `uint` are taken to be 64 bits wide, as on 64-bit platforms.
- `%T` printing of an unsupported type's name: `Unsupported` carries the name as is, and `nil` is one such value. The name is restricted to none of the built-in names (`OtherTypeName`), so a message never confuses it with a supported type.
- Concurrency and key functions with side effects: the key is a pure function of the element's value.
