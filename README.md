# Ordering assertions of the `assert` package

This project models the ordering part of a Go assertion library:
- `compare`, the three-way ordering engine. It takes two values and a reflection kind, and returns a verdict (`compareLess = -1`, `compareEqual = 0`, `compareGreater = 1`) together with a flag saying whether the values are orderable at all.
- The two-value assertions built on it: `compareTwoValues`, `containsValue`, `Greater`, `GreaterOrEqual`, `Less`, `LessOrEqual`, `Positive` and `Negative`.
- The monotonicity assertions: `isOrdered`, `IsIncreasing`, `IsNonIncreasing`, `IsDecreasing` and `IsNonDecreasing`.

The project is split into four modules:
- `Values` (values.dfy) defines Go values as the engine sees them. A value is a reflection `Kind` plus the payload that gets compared:
  - integers of every width, with their ranges;
  - floats, as extended reals plus NaN;
  - strings, as byte sequences;
  - times, as their `UnixNano` count;
  - slices and arrays, with their element kind and elements;
  - everything else, reduced to its kind.

  It also defines `reflect.Zero`. A named type such as `customInt` is its underlying kind. The exception is the element type of a slice: `[]byte` and a named `customBytes []byte` convert to `[]byte`, but a `[]myByte` with `type myByte uint8` does not. So a slice value also records whether its element type is `byte` itself.
- `Builtins` (builtins.dfy) defines the Go orderings the engine relies on: float `<` and `==`, string `<` (byte-wise lexicographic), and `bytes.Compare`.
- `AssertionCompare` (assertion_compare.dfy) models `compare` as a function. `containsValue` is a method with its loop. `compareTwoValues` and its wrappers are methods returning an `Outcome`:
  - `Pass`;
  - `Fail(reason)` — the reason tells which failure message is reported and which operands appear in it, in order;
  - `Panic`.
- `AssertionOrder` (assertion_order.dfy) models `isOrdered` as a method with its loop over adjacent pairs. Each method is proved equal to a specification function (`ComparisonOutcome`, `AgainstZero`, `OrderedOutcome`). The ordering laws are proved as lemmas about those functions.

The model follows the code in three places where a reader of the documentation might expect otherwise:
- In `compare`, the struct and slice branches ask only whether the *first* operand converts to `time.Time` or `[]byte`. When the first does and the second does not, `Convert` panics (assertion_compare.go:324-339, 344-359). The model has `ConvertPanic` for this case, and the two-value assertions report `Panic`.
- `Positive` and `Negative` on the untyped nil panic inside `reflect.Zero`. `isOrdered` on nil panics inside `reflect.TypeOf(nil).Kind()`.
- `isOrdered`'s "Can not compare type" message formats the types of two `reflect.Value`s, never the element type. So its reason, `ElementsNotComparable`, carries no kind. Every pair is compared at the kind of element 0 as seen through `reflect.Value.Kind()`. For a `[]any` that kind is `Interface`, so a `[]any` of two or more elements always fails as not comparable.

## Model

| member | source | states |
|---|---|---|
| AssertionCompare.Sign | assertion_compare.go:26-30 | the verdict is Less, Equal or Greater exactly when the difference is negative, zero or positive |
| AssertionCompare.CompareIntegers | assertion_compare.go:60-259 | at every integer kind both operands are integers, the result is comparable, and the verdict is the sign of their difference |
| AssertionCompare.CompareFloats | assertion_compare.go:260-299 | floats are comparable iff neither is NaN; then Less/Equal/Greater iff Go's float `<`, `==`, `>` holds; when not comparable, the verdict is Equal (fall-through to the final return) |
| AssertionCompare.CompareStrings | assertion_compare.go:300-319 | strings are always comparable and their verdict is `bytes.Compare` of their bytes |
| AssertionCompare.CompareSlices | assertion_compare.go:341-360 | a first operand that does not convert to `[]byte` is rejected with (Equal, false); a byte slice against one that does not convert panics, in exactly that case; two byte slices are comparable, with the `bytes.Compare` verdict, which is Less, Equal or Greater exactly when the first's bytes are lexicographically smaller than, equal to or greater than the second's |
| AssertionCompare.Compare | assertion_compare.go:53-364 | it panics exactly when the first operand converts to time or bytes and the second does not; the verdict is always -1, 0 or 1; a non-comparable result carries Equal; every value outside the orderable kinds gives (Equal, false) |
| AssertionCompare.IntegerVerdictIsSign | assertion_compare.go:60-259 | for every integer kind, `compare` is comparable and its verdict is the sign of x - y |
| AssertionCompare.FloatVerdict | assertion_compare.go:260-299 | for both float kinds, `compare` is comparable iff neither operand is NaN, and the verdict matches Go's float operators |
| AssertionCompare.NaNIsNotComparable | assertion_compare.go:260-299 | NaN against NaN gives (Equal, false) |
| AssertionCompare.StringVerdictIsBytesCompare | assertion_compare.go:300-319 | the string verdict equals `bytes.Compare` on the same bytes |
| AssertionCompare.ByteSlicesCompareLexicographically | assertion_compare.go:341-360 | two byte slices are comparable; the verdict is Less, Equal or Greater exactly when the bytes are lexicographically smaller, equal or greater |
| AssertionCompare.ProperPrefixSliceIsLess | assertion_compare.go:341-360 | a byte slice that is a proper prefix of another compares Less |
| AssertionCompare.FirstDifferenceStringDecides | assertion_compare.go:300-319 | after a common prefix, a string whose first differing byte is smaller compares (Less, true) |
| AssertionCompare.FirstDifferenceSliceDecides | assertion_compare.go:341-360 | after a common prefix, a byte slice whose first differing byte is smaller compares (Less, true) |
| AssertionCompare.TimeOrderedByNanos | assertion_compare.go:321-340 | two times compare as the recursive call on their nanosecond counts at kind Int64 does, which is the sign of their difference |
| AssertionCompare.RejectedValues | assertion_compare.go:321-363 | a struct that is not a time, a map, and a kind outside the switch (uintptr) all give (Equal, false) |
| AssertionCompare.RejectedSlice | assertion_compare.go:341-346 | a `[]int` is rejected with (Equal, false) |
| AssertionCompare.NamedByteElementsDoNotConvert | assertion_compare.go:341-360 | two `[]myByte` slices (element kind Uint8, element type not `byte`) are rejected with (Equal, false); a `[]byte` against a `[]myByte` panics |
| AssertionCompare.ConvertibilityCheckIsOneSided | assertion_compare.go:321-340 | a time against a plain struct panics; a plain struct against a time is rejected |
| AssertionCompare.CompareReflexive | assertion_compare.go:53-364 | every orderable value other than NaN compares (Equal, true) with itself |
| AssertionCompare.IntegersAntisymmetric | assertion_compare.go:60-259 | swapping integer operands negates the verdict and keeps the flag |
| AssertionCompare.FloatsAntisymmetric | assertion_compare.go:260-299 | swapping float operands negates the verdict and keeps the flag, NaN included |
| AssertionCompare.StringsAntisymmetric | assertion_compare.go:300-319 | swapping string operands negates the verdict |
| AssertionCompare.TimesAntisymmetric | assertion_compare.go:321-340 | swapping time operands negates the verdict |
| AssertionCompare.ByteSlicesAntisymmetric | assertion_compare.go:341-360 | swapping byte-slice operands negates the verdict |
| AssertionCompare.CompareAntisymmetric | assertion_compare.go:53-364 | whenever neither order panics, compare(y, x) is compare(x, y) with the verdict negated and the same flag |
| AssertionCompare.StringExample | assertion_compare_test.go:47-94 | "a" vs "b" is (Less, true) and "b" vs "a" is (Greater, true) |
| AssertionCompare.IntegerExamples | assertion_compare_test.go:51-67 | int8 1 vs 2 is (Less, true); uint64 2 vs 1 is (Greater, true) |
| AssertionCompare.FloatExample | assertion_compare_test.go:70 | float64 1.23 vs 2.34 is (Less, true) |
| AssertionCompare.TimeExample | assertion_compare_test.go:72 | a time vs the same time plus one hour is (Less, true) |
| AssertionCompare.ByteSliceExample | assertion_compare_test.go:74 | `[]byte{1, 1}` vs `[]byte{1, 2}` is (Less, true) |
| AssertionCompare.LessIffSwappedGreater | assertion_compare_test.go:77-94 | for two values of one type, compare(x, y) is (Less, true) iff compare(y, x) is (Greater, true) |
| AssertionCompare.SameBytesSameSlice | assertion_compare.go:341-360 | two byte slices with the same bytes are the same value |
| AssertionCompare.EqualVerdictMeansIdentical | assertion_compare.go:53-364 | a comparable Equal verdict holds only between identical values |
| AssertionCompare.IntegersTransitive | assertion_compare.go:60-259 | the strict integer order is transitive |
| AssertionCompare.FloatsTransitive | assertion_compare.go:260-299 | the strict float order is transitive |
| AssertionCompare.StringsTransitive | assertion_compare.go:300-319 | the strict string order is transitive |
| AssertionCompare.TimesTransitive | assertion_compare.go:321-340 | the strict time order is transitive |
| AssertionCompare.ByteSlicesTransitive | assertion_compare.go:341-360 | the strict byte-slice order is transitive |
| AssertionCompare.PrecedesTransitive | assertion_compare.go:53-364 | at every kind, (Less, true) from x to y and from y to z gives (Less, true) from x to z |
| AssertionCompare.AtMostTransitive | assertion_compare.go:53-364 | the non-strict order "Less or Equal, comparable" is transitive |
| AssertionCompare.SwapComparable | assertion_compare.go:53-364 | once compare(x, y) is comparable, compare(y, x) is its flip |
| AssertionCompare.FollowsTransitive | assertion_compare.go:53-364 | (Greater, true) from x to y and from y to z gives (Greater, true) from x to z |
| AssertionCompare.ContainsValue | assertion_compare.go:439-447 | the scan returns true iff the value occurs in the slice |
| AssertionCompare.MismatchedKindsAlwaysFail | assertion_compare.go:421-425 | operands of different kinds fail with "Elements should be the same type", whatever the allowed verdicts |
| AssertionCompare.ComparisonPassIff | assertion_compare.go:416-437 | with equal kinds, the assertion holds iff compare is comparable and its verdict is allowed; a non-comparable result fails with the kind; a disallowed verdict fails with the message and (e1, e2) |
| AssertionCompare.EqualOperandsSeparateStrictFromNonStrict | assertion_compare.go:367-396 | on equal orderable operands Greater and Less fail while GreaterOrEqual and LessOrEqual hold |
| AssertionCompare.CompareTwoValues | assertion_compare.go:416-437 | the method's outcome is the specification `ComparisonOutcome`: kind check, then the conversion panic, then the comparable check, then membership of the verdict |
| AssertionCompare.Greater | assertion_compare.go:367-372 | passes iff the operands have one kind and compare (Greater, true); otherwise fails or panics as `compareTwoValues` does with {Greater} |
| AssertionCompare.GreaterOrEqual | assertion_compare.go:375-380 | passes iff the operands have one kind and compare Greater or Equal, comparable |
| AssertionCompare.Less | assertion_compare.go:383-388 | passes iff the operands have one kind and compare (Less, true) |
| AssertionCompare.LessOrEqual | assertion_compare.go:391-396 | passes iff the operands have one kind and compare Less or Equal, comparable |
| AssertionCompare.Positive | assertion_compare.go:399-405 | panics on the untyped nil; otherwise compares the value with the zero of its type, allowing only Greater |
| AssertionCompare.Negative | assertion_compare.go:408-414 | panics on the untyped nil; otherwise compares the value with the zero of its type, allowing only Less |
| AssertionCompare.IntegerSignAssertions | assertion_compare.go:399-414 | an integer is Positive iff it is above 0 and Negative iff it is below 0; 0 fails both with itself as both operands |
| AssertionCompare.FloatSignAssertions | assertion_compare.go:399-414 | a float is Positive iff it is above 0.0 and Negative iff it is below; NaN fails Positive as not comparable |
| AssertionCompare.TimeSignAssertions | assertion_compare.go:399-414 | a time is Positive iff its `UnixNano` count is above the zero time's wrapped count -6795364578871345152, and Negative iff it is below |
| AssertionCompare.ZeroTimeWrapsAboveEarlyInstants | assertion_compare.go:321-340 | the zero time (year 1) compares Greater than an instant of 1700, `Greater` holds between them, and the 1700 instant is Negative: the order follows the wrapped counts |
| AssertionCompare.TwoValueExamples | assertion_compare_test.go:141-353 | Greater(2, 1) holds, Greater(1, 1) fails with (1, 1), GreaterOrEqual(1, 1) holds, Less(2, 1) fails with (2, 1), and 123 vs "abc" fails on kinds |
| AssertionCompare.SignExamples | assertion_compare_test.go:281-316 | Positive(0) and Negative(0) fail, Negative(-1) holds, Positive(nil) panics |
| Values.Zero | assertion_compare.go:403 | `reflect.Zero` keeps the kind and gives 0, 0.0, the empty string, the zero time's count, an empty slice of the same element type, an array of the same length, and, for every other kind, a value of the same kind (which is all such a value records) |
| Values.ZeroWellFormed | assertion_compare.go:399-414 | `reflect.Zero` gives a well-formed value of the same type as its argument |
| Values.Bytes | assertion_compare.go:341-360 | the bytes `Convert` to `[]byte` yields: one per element, with the element's value |
| Builtins.BytesCompare | assertion_compare.go:359 | `bytes.Compare` returns -1, 0 or 1, and 0 exactly when the byte sequences are equal |
| Builtins.BytesCompareIsStringOrder | assertion_compare.go:300-319 | `bytes.Compare` is -1 (or 1) exactly when the first (or second) sequence is smaller under Go's string `<` |
| Builtins.BytesCompareSwap | assertion_compare.go:359 | swapping the arguments of `bytes.Compare` negates its result |
| Builtins.FloatTrichotomy | assertion_compare.go:260-299 | exactly one of `<`, `==`, `>` holds between non-NaN floats, and none when one is NaN |
| Builtins.StringTrichotomy | assertion_compare.go:300-319 | exactly one of a < b, a == b, b < a holds between strings |
| Builtins.StringLessTransitive | assertion_compare.go:300-319 | Go's string `<` is transitive |
| Builtins.ProperPrefixIsLess | assertion_compare.go:359 | a proper prefix is smaller |
| Builtins.FirstDifferenceDecides | assertion_compare.go:359 | after a common prefix, the first differing byte decides the order |
| AssertionOrder.PairOutcome | assertion_order.go:47-55 | one loop step panics exactly when `compare` panics, passes exactly when the pair is comparable with an allowed verdict, and otherwise fails as not comparable or reports (previous, current) |
| AssertionOrder.FirstNonPassIff | assertion_order.go:40-58 | the scan passes iff every step passes |
| AssertionOrder.FirstNonPassIndex | assertion_order.go:40-58 | a failing scan reports the first step that does not pass, and every earlier step passes |
| AssertionOrder.FirstNonPassAt | assertion_order.go:40-58 | a step that is the first not to pass is the one reported |
| AssertionOrder.IsOrdered | assertion_order.go:23-59 | the loop's outcome is the specification `OrderedOutcome`: nil panics, a non-collection fails with its kind, short collections pass, otherwise the first adjacent pair that does not pass decides |
| AssertionOrder.IsIncreasing | assertion_order.go:62-64 | `isOrdered` with {Less} and the "not less than" message |
| AssertionOrder.IsNonIncreasing | assertion_order.go:67-69 | `isOrdered` with {Equal, Greater} and the "not greater than or equal to" message |
| AssertionOrder.IsDecreasing | assertion_order.go:72-74 | `isOrdered` with {Greater} and the "not greater than" message |
| AssertionOrder.IsNonDecreasing | assertion_order.go:77-79 | `isOrdered` with {Less, Equal} and the "not less than or equal to" message |
| AssertionOrder.NonCollectionFails | assertion_order.go:24-27 | anything but a slice or an array (other than nil) fails with its kind |
| AssertionOrder.ShortCollectionPasses | assertion_order.go:32-34 | a collection of length 0 or 1 passes |
| AssertionOrder.OrderedPassIff | assertion_order.go:23-59 | the assertion holds iff the value is a collection and every adjacent pair (x[i-1], x[i]) is comparable with an allowed verdict |
| AssertionOrder.FirstViolationReported | assertion_order.go:40-58 | a failing collection's outcome is that of the first adjacent pair that does not pass, reported as (previous, current); all earlier pairs pass |
| AssertionOrder.ViolationAtReported | assertion_order.go:40-58 | conversely, if pair k is the first not to pass, its outcome is the assertion's outcome |
| AssertionOrder.CollectionsNeverPanic | assertion_order.go:40-58 | elements of one collection share a type, so the scan never reaches the conversion panic |
| AssertionOrder.UnorderableElementsFail | assertion_order.go:36-51 | with two or more elements of a kind the engine does not order, the first pair fails as not comparable |
| AssertionOrder.WiderAllowedSetStillPasses | assertion_order.go:40-58 | allowing more verdicts never turns a passing collection into a failing one |
| AssertionOrder.StrictImpliesNonStrict | assertion_order.go:62-79 | IsIncreasing implies IsNonDecreasing, and IsDecreasing implies IsNonIncreasing |
| AssertionOrder.AllowedOfIsAllows | assertion_order.go:62-79 | the four allowed sets are exactly {Less}, {Equal, Greater}, {Greater} and {Less, Equal} |
| AssertionOrder.IncreasingTransitive | assertion_order.go:62-64 | the order IsIncreasing checks between neighbours is transitive |
| AssertionOrder.NonDecreasingTransitive | assertion_order.go:77-79 | the order IsNonDecreasing checks between neighbours is transitive |
| AssertionOrder.DecreasingTransitive | assertion_order.go:72-74 | the order IsDecreasing checks between neighbours is transitive |
| AssertionOrder.NonIncreasingTransitive | assertion_order.go:67-69 | the order IsNonIncreasing checks between neighbours is transitive |
| AssertionOrder.InOrderTransitive | assertion_order.go:62-79 | each of the four neighbour orders is transitive |
| AssertionOrder.InOrderChain | assertion_order.go:40-58 | when every adjacent pair passes, every element is in order with every later one |
| AssertionOrder.OrderedIsSorted | assertion_order.go:23-79 | each of the four assertions passes on a collection iff every element is in the asserted order with every later element, not only its neighbour |
| AssertionOrder.IntSlice | assertion_order_test.go:24-27 | a `[]int` literal is a well-formed slice of Int elements holding the numbers |
| AssertionOrder.IntPairDecidedBySign | assertion_order.go:47-55 | in a `[]int`, each adjacent pair passes iff the sign of its difference is allowed, and otherwise reports the two numbers |
| AssertionOrder.IntScanMatches | assertion_order.go:40-58 | from pair i on, the scan agrees with a reference scan on the numbers alone |
| AssertionOrder.IntSliceOrdered | assertion_order.go:23-59 | on a `[]int`, `isOrdered` reports what the reference scan on the numbers reports |
| AssertionOrder.IncreasingExample | assertion_order_test.go:24-25 | IsIncreasing([]int{1, 2, 3, 4, 5}) holds |
| AssertionOrder.NotIncreasingEqualExample | assertion_order_test.go:26 | IsIncreasing([]int{1, 1}) fails, reporting (1, 1) |
| AssertionOrder.NotIncreasingFirstExample | assertion_order_test.go:36 | IsIncreasing([]int{2, 1, 3, 4, 5, 6, 7}) fails, reporting (2, 1) |
| AssertionOrder.NotIncreasingLateExample | assertion_order_test.go:37 | IsIncreasing([]int{-1, 0, 2, 1}) fails, reporting (2, 1) |
| AssertionOrder.NonIncreasingExample | assertion_order_test.go:59 | IsNonIncreasing([]int{5, 4, 4, 3, 2, 1}) holds |
| AssertionOrder.NonIncreasingEqualExample | assertion_order_test.go:60 | IsNonIncreasing([]int{1, 1}) holds |
| AssertionOrder.NotNonIncreasingExample | assertion_order_test.go:61 | IsNonIncreasing([]int{1, 2}) fails, reporting (1, 2) |
| AssertionOrder.NotDecreasingLateExample | assertion_order_test.go:105 | IsDecreasing([]int{5, 4, 3, 1, 2}) fails, reporting (1, 2) |
| AssertionOrder.NotDecreasingEqualExample | assertion_order_test.go:94 | IsDecreasing([]int{1, 1}) fails, reporting (1, 1) |
| AssertionOrder.NonDecreasingExample | assertion_order_test.go:128 | IsNonDecreasing([]int{1, 1}) holds |

## Left out

- Floats: the float branches are modelled, not left opaque. A float is a real number, +Inf, -Inf or NaN. Comparison between two IEEE values is exact, so this is faithful for `<`, `==` and `>`. The model does not capture representability, rounding or the float32 conversion, and -0.0 is identified with +0.0.
- Failure messages: their text, with `fmt.Sprintf` and `%v` formatting, is left out. Each failure is a reason datatype that keeps which message is used and which operands appear, in order.
- `a.Fail`, the test sink it writes to, `msgAndArgs` and the `tHelper`/`Helper()` calls are left out, because `a.Fail` is not part of this model. An assertion's boolean result is `Outcome == Pass`.
- `reflect.ValueOf`, `Convert`, `canConvert` and the type variables (assertion_compare.go:32-51, 449-453) are replaced by the value's kind tag. A named slice type whose element type is `byte` counts as `[]byte`, and a named time type as `time.Time`. The model keeps no other part of a type. So two values of different named types with the same kind (`customInt` and `int`) count as the same type. In the orderable branches of `compare` both values convert to the same Go type, so this is not observable there.
- Time values: the monotonic clock reading and the location are left out. A `time.Time` is only the nanosecond count `UnixNano` gives for it, which wraps around for instants outside the years 1678 to 2262; that of the zero time is -6795364578871345152. So the model does not relate a time to its calendar instant, and the order it proves is the order of the wrapped counts, as the code compares them. Outside that window, this order differs from the calendar order (see `ZeroTimeWrapsAboveEarlyInstants`).
- Compare: the time branch is a direct integer comparison at kind Int64, not a recursive call. `TimeOrderedByNanos` proves it equal to that recursive call.
- `int` and `uint` are taken to be 64 bits wide.
- The behaviour exercised only in assertions_test.go (deep equality, diffs, `Eventually`, panics, files, JSON/YAML, errors) is not part of this model.
