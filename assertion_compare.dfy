/** The three-way ordering engine `compare` and the two-value assertions
    built on it (`Greater`, `GreaterOrEqual`, `Less`, `LessOrEqual`,
    `Positive`, `Negative`). */
module AssertionCompare {
  import opened Values
  import opened Builtins

  /** The verdict of a comparison; the engine only produces -1, 0 and 1. */
  type CompareType = int

  const CompareLess: CompareType := -1
  const CompareEqual: CompareType := 0
  const CompareGreater: CompareType := 1

  /** What `compare` yields: a verdict with the flag saying whether the
      values were orderable at all, or the panic `reflect.Value.Convert`
      raises when the second operand cannot be converted like the first. */
  datatype CompareResult = Cmp(verdict: CompareType, comparable: bool) | ConvertPanic

  /** The sign of a difference, as a verdict. */
  function Sign(d: int): (s: CompareType)
    ensures s == CompareLess <==> d < 0
    ensures s == CompareEqual <==> d == 0
    ensures s == CompareGreater <==> d > 0
  {
    if d < 0 then CompareLess else if d == 0 then CompareEqual else CompareGreater
  }

  /** The shape every scalar branch of `compare` shares: test `>`, then `==`,
      then `<`, returning at the first that holds; when none holds control
      leaves the switch and reaches the final `return compareEqual, false`. */
  function ThreeWay(greater: bool, equal: bool, less: bool): CompareResult
  {
    if greater then Cmp(CompareGreater, true)
    else if equal then Cmp(CompareEqual, true)
    else if less then Cmp(CompareLess, true)
    else Cmp(CompareEqual, false)
  }

  /** The struct and slice branches test only the first operand for
      convertibility; a second operand that does not convert panics. */
  predicate ConvertPanics(x: Value, y: Value, kind: Kind)
  {
    (kind == Struct && IsTime(x) && !IsTime(y)) ||
    (kind == Slice && IsByteSlice(x) && !IsByteSlice(y))
  }

  /** The kinds (and, for structs and slices, the values) `compare` orders. */
  predicate Orderable(x: Value, kind: Kind)
  {
    kind.IsInteger() || kind.IsFloat() || kind == String ||
    (kind == Struct && IsTime(x)) || (kind == Slice && IsByteSlice(x))
  }

  /** The integer branches of `compare`: at every integer kind both operands
      are converted to that kind's Go type and compared with `>`, `==`, `<`. */
  function CompareIntegers(x: Value, y: Value, kind: Kind): (r: CompareResult)
    requires kind.IsInteger() && Admissible(x, kind) && Admissible(y, kind)
    ensures x.IntV? && y.IntV?
    ensures r == Cmp(Sign(x.n - y.n), true)
  {
    IntegerKindIsIntV(x);
    IntegerKindIsIntV(y);
    ThreeWay(x.n > y.n, x.n == y.n, x.n < y.n)
  }

  /** The float branches: Go's float `>`, `==`, `<`, none of which holds
      when an operand is NaN. */
  function CompareFloats(x: Value, y: Value): (r: CompareResult)
    requires x.FloatV? && y.FloatV?
    ensures r.Cmp? && (r.comparable <==> !x.f.NaN? && !y.f.NaN?)
    ensures r.comparable ==>
      (r.verdict == CompareLess <==> FloatLess(x.f, y.f)) &&
      (r.verdict == CompareEqual <==> x.f == y.f) &&
      (r.verdict == CompareGreater <==> FloatLess(y.f, x.f))
    ensures !r.comparable ==> r.verdict == CompareEqual
  {
    FloatTrichotomy(x.f, y.f);
    ThreeWay(FloatLess(y.f, x.f), FloatEqual(x.f, y.f), FloatLess(x.f, y.f))
  }

  /** The string branch: Go's string `>`, `==`, `<`. */
  function CompareStrings(x: Value, y: Value): (r: CompareResult)
    requires x.StrV? && y.StrV?
    ensures r == Cmp(BytesCompare(x.s, y.s), true)
  {
    StringTrichotomy(x.s, y.s);
    BytesCompareIsStringOrder(x.s, y.s);
    ThreeWay(StringLess(y.s, x.s), x.s == y.s, StringLess(x.s, y.s))
  }

  /** The slice branch: a first operand that does not convert to `[]byte`
      is rejected, a second that does not convert panics, and two byte
      slices are compared with `bytes.Compare`. */
  function CompareSlices(x: Value, y: Value): (r: CompareResult)
    requires WellFormed(x) && WellFormed(y)
    ensures r.ConvertPanic? <==> IsByteSlice(x) && !IsByteSlice(y)
    ensures !IsByteSlice(x) ==> r == Cmp(CompareEqual, false)
    ensures IsByteSlice(x) && IsByteSlice(y) ==> r == Cmp(BytesCompare(Bytes(x), Bytes(y)), true)
    ensures IsByteSlice(x) && IsByteSlice(y) ==>
      (r.verdict == CompareLess <==> StringLess(Bytes(x), Bytes(y))) &&
      (r.verdict == CompareEqual <==> Bytes(x) == Bytes(y)) &&
      (r.verdict == CompareGreater <==> StringLess(Bytes(y), Bytes(x)))
  {
    if !IsByteSlice(x) then Cmp(CompareEqual, false)
    else if !IsByteSlice(y) then ConvertPanic
    else
      BytesCompareIsStringOrder(Bytes(x), Bytes(y));
      Cmp(BytesCompare(Bytes(x), Bytes(y)), true)
  }

  /** `compare(obj1, obj2, kind)`. Integers compare by value, floats by
      Go's float operators, strings by Go's string `<`, times by their
      nanosecond counts at kind Int64, byte slices with `bytes.Compare`;
      everything else is rejected with (compareEqual, false). */
  function Compare(x: Value, y: Value, kind: Kind): (r: CompareResult)
    requires Admissible(x, kind) && Admissible(y, kind)
    ensures r.ConvertPanic? <==> ConvertPanics(x, y, kind)
    ensures r.Cmp? ==> r.verdict in {CompareLess, CompareEqual, CompareGreater}
    ensures r.Cmp? && !r.comparable ==> r.verdict == CompareEqual
    ensures !Orderable(x, kind) ==> r == Cmp(CompareEqual, false)
  {
    if kind.IsInteger() then CompareIntegers(x, y, kind)
    else if kind.IsFloat() then CompareFloats(x, y)
    else if kind == String then CompareStrings(x, y)
    else if kind == Struct then
      if !IsTime(x) then Cmp(CompareEqual, false)
      else if !IsTime(y) then ConvertPanic
      else CompareIntegers(IntV(Int64, x.nanos), IntV(Int64, y.nanos), Int64)
    else if kind == Slice then CompareSlices(x, y)
    else
      Cmp(CompareEqual, false)
  }

  /** For every integer kind the verdict is the sign of the difference:
      one of the three tests always fires, so the fall-through is unreachable. */
  lemma IntegerVerdictIsSign(x: Value, y: Value, kind: Kind)
    requires kind.IsInteger() && Admissible(x, kind) && Admissible(y, kind)
    ensures x.IntV? && y.IntV?
    ensures Compare(x, y, kind) == Cmp(Sign(x.n - y.n), true)
  {
    IntegerKindIsIntV(x);
    IntegerKindIsIntV(y);
  }

  /** Floats are ordered unless one of them is NaN, which is rejected as
      not comparable. */
  lemma FloatVerdict(x: Value, y: Value, kind: Kind)
    requires kind.IsFloat() && Admissible(x, kind) && Admissible(y, kind)
    ensures Compare(x, y, kind).Cmp?
    ensures Compare(x, y, kind).comparable <==> !x.f.NaN? && !y.f.NaN?
    ensures Compare(x, y, kind).comparable ==>
      (Compare(x, y, kind).verdict == CompareLess <==> FloatLess(x.f, y.f)) &&
      (Compare(x, y, kind).verdict == CompareEqual <==> x.f == y.f) &&
      (Compare(x, y, kind).verdict == CompareGreater <==> FloatLess(y.f, x.f))
  {
    FloatTrichotomy(x.f, y.f);
  }

  /** A NaN is not comparable even with itself. */
  lemma NaNIsNotComparable(kind: Kind)
    requires kind.IsFloat()
    ensures Compare(FloatV(kind, NaN), FloatV(kind, NaN), kind) == Cmp(CompareEqual, false)
  {
  }

  /** The string branch agrees with `bytes.Compare` on the same bytes. */
  lemma StringVerdictIsBytesCompare(x: Value, y: Value)
    requires Admissible(x, String) && Admissible(y, String)
    ensures x.StrV? && y.StrV?
    ensures Compare(x, y, String) == Cmp(BytesCompare(x.s, y.s), true)
  {
    StringTrichotomy(x.s, y.s);
    BytesCompareIsStringOrder(x.s, y.s);
  }

  /** Byte slices compare lexicographically and are always comparable. */
  lemma ByteSlicesCompareLexicographically(x: Value, y: Value)
    requires Admissible(x, Slice) && Admissible(y, Slice)
    requires IsByteSlice(x) && IsByteSlice(y)
    ensures Compare(x, y, Slice).Cmp? && Compare(x, y, Slice).comparable
    ensures Compare(x, y, Slice).verdict == CompareLess <==> StringLess(Bytes(x), Bytes(y))
    ensures Compare(x, y, Slice).verdict == CompareEqual <==> Bytes(x) == Bytes(y)
    ensures Compare(x, y, Slice).verdict == CompareGreater <==> StringLess(Bytes(y), Bytes(x))
  {
    BytesCompareIsStringOrder(Bytes(x), Bytes(y));
  }

  /** A byte slice that is a proper prefix of another is Less. */
  lemma ProperPrefixSliceIsLess(x: Value, y: Value)
    requires Admissible(x, Slice) && Admissible(y, Slice)
    requires IsByteSlice(x) && IsByteSlice(y)
    requires |Bytes(x)| < |Bytes(y)| && Bytes(x) == Bytes(y)[..|Bytes(x)|]
    ensures Compare(x, y, Slice) == Cmp(CompareLess, true)
  {
    ProperPrefixIsLess(Bytes(x), Bytes(y));
    ByteSlicesCompareLexicographically(x, y);
  }

  /** After a common prefix, the first differing byte decides a string comparison. */
  lemma FirstDifferenceStringDecides(x: Value, y: Value, k: nat)
    requires Admissible(x, String) && Admissible(y, String)
    requires k < |x.s| && k < |y.s| && x.s[..k] == y.s[..k] && x.s[k] < y.s[k]
    ensures Compare(x, y, String) == Cmp(CompareLess, true)
  {
    FirstDifferenceDecides(x.s, y.s, k);
    StringVerdictIsBytesCompare(x, y);
    BytesCompareIsStringOrder(x.s, y.s);
  }

  /** After a common prefix, the first differing byte decides a byte-slice comparison. */
  lemma FirstDifferenceSliceDecides(x: Value, y: Value, k: nat)
    requires Admissible(x, Slice) && Admissible(y, Slice) && IsByteSlice(x) && IsByteSlice(y)
    requires k < |Bytes(x)| && k < |Bytes(y)| && Bytes(x)[..k] == Bytes(y)[..k] && Bytes(x)[k] < Bytes(y)[k]
    ensures Compare(x, y, Slice) == Cmp(CompareLess, true)
  {
    FirstDifferenceDecides(Bytes(x), Bytes(y), k);
    ByteSlicesCompareLexicographically(x, y);
  }

  /** Times compare as their nanosecond counts do under the Int64 rule. */
  lemma TimeOrderedByNanos(x: Value, y: Value)
    requires Admissible(x, Struct) && Admissible(y, Struct) && IsTime(x) && IsTime(y)
    ensures Compare(x, y, Struct) == Compare(IntV(Int64, x.nanos), IntV(Int64, y.nanos), Int64)
    ensures Compare(x, y, Struct) == Cmp(Sign(x.nanos - y.nanos), true)
  {
    IntegerVerdictIsSign(IntV(Int64, x.nanos), IntV(Int64, y.nanos), Int64);
  }

  /** The values the engine refuses: a plain struct, a map, and a kind
      outside the switch. */
  lemma RejectedValues()
    ensures Compare(OtherV(Struct), OtherV(Struct), Struct) == Cmp(CompareEqual, false)
    ensures Compare(OtherV(Map), OtherV(Map), Map) == Cmp(CompareEqual, false)
    ensures Compare(OtherV(Uintptr), OtherV(Uintptr), Uintptr) == Cmp(CompareEqual, false)
  {
  }

  /** A slice that is not of bytes is refused as well. */
  lemma RejectedSlice()
    ensures Compare(ListV(Slice, Int, false, [IntV(Int, 0)]), ListV(Slice, Int, false, [IntV(Int, 0)]), Slice)
         == Cmp(CompareEqual, false)
  {
  }

  /** A slice of a named byte type (`type myByte uint8`) does not convert to
      `[]byte`: two of them are rejected, and a `[]byte` against one panics. */
  lemma NamedByteElementsDoNotConvert()
    ensures Compare(ListV(Slice, Uint8, false, [IntV(Uint8, 1)]), ListV(Slice, Uint8, false, [IntV(Uint8, 2)]), Slice)
         == Cmp(CompareEqual, false)
    ensures Compare(ListV(Slice, Uint8, true, [IntV(Uint8, 1)]), ListV(Slice, Uint8, false, [IntV(Uint8, 2)]), Slice)
         == ConvertPanic
  {
  }

  /** Only the first operand's convertibility is tested: a time against a
      struct that is not a time panics, the other way round is rejected. */
  lemma ConvertibilityCheckIsOneSided()
    ensures Compare(TimeV(0), OtherV(Struct), Struct) == ConvertPanic
    ensures Compare(OtherV(Struct), TimeV(0), Struct) == Cmp(CompareEqual, false)
  {
  }

  /** Comparing an orderable value with itself yields (compareEqual, true),
      NaN excepted. */
  lemma CompareReflexive(x: Value, kind: Kind)
    requires Admissible(x, kind) && Orderable(x, kind)
    requires !(x.FloatV? && x.f.NaN?)
    ensures Compare(x, x, kind) == Cmp(CompareEqual, true)
  {
    if kind.IsInteger() {
      IntegerVerdictIsSign(x, x, kind);
    } else if kind == String {
      StringLessIrreflexive(x.s);
    } else if kind == Struct {
      TimeOrderedByNanos(x, x);
    }
  }

  /** The verdict with its operands swapped. */
  function Flip(r: CompareResult): CompareResult
  {
    match r
    case Cmp(v, c) => Cmp(-v, c)
    case ConvertPanic => ConvertPanic
  }

  lemma IntegersAntisymmetric(x: Value, y: Value, kind: Kind)
    requires kind.IsInteger() && Admissible(x, kind) && Admissible(y, kind)
    ensures Compare(y, x, kind) == Flip(Compare(x, y, kind))
  {
    assert Compare(x, y, kind) == CompareIntegers(x, y, kind);
    assert Compare(y, x, kind) == CompareIntegers(y, x, kind);
  }

  lemma FloatsAntisymmetric(x: Value, y: Value, kind: Kind)
    requires kind.IsFloat() && Admissible(x, kind) && Admissible(y, kind)
    ensures Compare(y, x, kind) == Flip(Compare(x, y, kind))
  {
    FloatTrichotomy(x.f, y.f);
  }

  lemma StringsAntisymmetric(x: Value, y: Value)
    requires Admissible(x, String) && Admissible(y, String)
    ensures Compare(y, x, String) == Flip(Compare(x, y, String))
  {
    BytesCompareSwap(x.s, y.s);
  }

  lemma TimesAntisymmetric(x: Value, y: Value)
    requires Admissible(x, Struct) && Admissible(y, Struct) && IsTime(x) && IsTime(y)
    ensures Compare(y, x, Struct) == Flip(Compare(x, y, Struct))
  {
    TimeOrderedByNanos(x, y);
    TimeOrderedByNanos(y, x);
  }

  lemma ByteSlicesAntisymmetric(x: Value, y: Value)
    requires Admissible(x, Slice) && Admissible(y, Slice) && IsByteSlice(x) && IsByteSlice(y)
    ensures Compare(y, x, Slice) == Flip(Compare(x, y, Slice))
  {
    BytesCompareSwap(Bytes(x), Bytes(y));
  }

  /** Swapping the operands negates the verdict and keeps the flag, whenever
      neither order panics. */
  lemma CompareAntisymmetric(x: Value, y: Value, kind: Kind)
    requires Admissible(x, kind) && Admissible(y, kind)
    requires !ConvertPanics(x, y, kind) && !ConvertPanics(y, x, kind)
    ensures Compare(y, x, kind) == Flip(Compare(x, y, kind))
  {
    if kind.IsInteger() {
      IntegersAntisymmetric(x, y, kind);
    } else if kind.IsFloat() {
      FloatsAntisymmetric(x, y, kind);
    } else if kind == String {
      StringsAntisymmetric(x, y);
    } else if kind == Struct && IsTime(x) {
      TimesAntisymmetric(x, y);
    } else if kind == Slice && IsByteSlice(x) {
      ByteSlicesAntisymmetric(x, y);
    }
  }

  /** Pairs from the tests, less one first: compare(less, greater) is Less
      and the swapped call is Greater. */
  lemma StringExample()
    ensures Compare(StrV([97]), StrV([98]), String) == Cmp(CompareLess, true)
    ensures Compare(StrV([98]), StrV([97]), String) == Cmp(CompareGreater, true)
  {
    StringVerdictIsBytesCompare(StrV([97]), StrV([98]));
    StringVerdictIsBytesCompare(StrV([98]), StrV([97]));
  }

  lemma IntegerExamples()
    ensures Compare(IntV(Int8, 1), IntV(Int8, 2), Int8) == Cmp(CompareLess, true)
    ensures Compare(IntV(Uint64, 2), IntV(Uint64, 1), Uint64) == Cmp(CompareGreater, true)
  {
    IntegerVerdictIsSign(IntV(Int8, 1), IntV(Int8, 2), Int8);
    IntegerVerdictIsSign(IntV(Uint64, 2), IntV(Uint64, 1), Uint64);
  }

  lemma FloatExample()
    ensures Compare(FloatV(Float64, Finite(1.23)), FloatV(Float64, Finite(2.34)), Float64) == Cmp(CompareLess, true)
  {
  }

  lemma TimeExample()
    ensures Compare(TimeV(0), TimeV(3_600_000_000_000), Struct) == Cmp(CompareLess, true)
  {
  }

  /** `[]byte{1, 1}` is less than `[]byte{1, 2}`. */
  lemma ByteSliceExample()
    ensures Compare(ListV(Slice, Uint8, true, [IntV(Uint8, 1), IntV(Uint8, 1)]),
                    ListV(Slice, Uint8, true, [IntV(Uint8, 1), IntV(Uint8, 2)]), Slice) == Cmp(CompareLess, true)
  {
    var x := ListV(Slice, Uint8, true, [IntV(Uint8, 1), IntV(Uint8, 1)]);
    var y := ListV(Slice, Uint8, true, [IntV(Uint8, 1), IntV(Uint8, 2)]);
    assert Bytes(x) == [1, 1] && Bytes(y) == [1, 2];
  }

  /** compare(a, b) is Less exactly when compare(b, a) is Greater, both
      comparable. */
  lemma LessIffSwappedGreater(x: Value, y: Value, kind: Kind)
    requires Admissible(x, kind) && Admissible(y, kind) && SameType(x, y)
    ensures Compare(x, y, kind) == Cmp(CompareLess, true) <==> Compare(y, x, kind) == Cmp(CompareGreater, true)
  {
    assert !ConvertPanics(x, y, kind) && !ConvertPanics(y, x, kind);
    CompareAntisymmetric(x, y, kind);
    var r := Compare(x, y, kind);
    assert Compare(y, x, kind) == Flip(r);
  }

  /** x orders strictly before y. */
  predicate Precedes(x: Value, y: Value, kind: Kind)
    requires Admissible(x, kind) && Admissible(y, kind)
  {
    Compare(x, y, kind) == Cmp(CompareLess, true)
  }

  /** x orders before or level with y. */
  predicate AtMost(x: Value, y: Value, kind: Kind)
    requires Admissible(x, kind) && Admissible(y, kind)
  {
    Compare(x, y, kind) == Cmp(CompareLess, true) || Compare(x, y, kind) == Cmp(CompareEqual, true)
  }

  /** Two byte slices with the same bytes are the same value. */
  lemma SameBytesSameSlice(x: Value, y: Value)
    requires WellFormed(x) && WellFormed(y) && IsByteSlice(x) && IsByteSlice(y)
    requires Bytes(x) == Bytes(y)
    ensures x == y
  {
    assert x.elems == y.elems by {
      forall i | 0 <= i < |x.elems| ensures x.elems[i] == y.elems[i] {
        assert x.elems[i] == IntV(Uint8, Bytes(x)[i]);
      }
    }
  }

  /** A comparable Equal verdict holds only between identical values: the
      engine never equates two different values (and -0.0 is +0.0 here). */
  lemma EqualVerdictMeansIdentical(x: Value, y: Value, kind: Kind)
    requires Admissible(x, kind) && Admissible(y, kind)
    requires Compare(x, y, kind) == Cmp(CompareEqual, true)
    ensures x == y
  {
    if kind.IsInteger() {
      IntegerKindIsIntV(x);
      IntegerKindIsIntV(y);
    } else if kind == Struct {
      TimeOrderedByNanos(x, y);
    } else if kind == Slice {
      SameBytesSameSlice(x, y);
    }
  }

  lemma IntegersTransitive(x: Value, y: Value, z: Value, kind: Kind)
    requires kind.IsInteger() && Admissible(x, kind) && Admissible(y, kind) && Admissible(z, kind)
    requires Precedes(x, y, kind) && Precedes(y, z, kind)
    ensures Precedes(x, z, kind)
  {
    IntegerVerdictIsSign(x, y, kind);
    IntegerVerdictIsSign(y, z, kind);
    IntegerVerdictIsSign(x, z, kind);
  }

  lemma FloatsTransitive(x: Value, y: Value, z: Value, kind: Kind)
    requires kind.IsFloat() && Admissible(x, kind) && Admissible(y, kind) && Admissible(z, kind)
    requires Precedes(x, y, kind) && Precedes(y, z, kind)
    ensures Precedes(x, z, kind)
  {
    FloatVerdict(x, y, kind);
    FloatVerdict(y, z, kind);
    FloatVerdict(x, z, kind);
    FloatLessTransitive(x.f, y.f, z.f);
  }

  lemma StringsTransitive(x: Value, y: Value, z: Value)
    requires Admissible(x, String) && Admissible(y, String) && Admissible(z, String)
    requires Precedes(x, y, String) && Precedes(y, z, String)
    ensures Precedes(x, z, String)
  {
    StringVerdictIsBytesCompare(x, y);
    StringVerdictIsBytesCompare(y, z);
    StringVerdictIsBytesCompare(x, z);
    BytesCompareIsStringOrder(x.s, y.s);
    BytesCompareIsStringOrder(y.s, z.s);
    BytesCompareIsStringOrder(x.s, z.s);
    StringLessTransitive(x.s, y.s, z.s);
  }

  lemma TimesTransitive(x: Value, y: Value, z: Value)
    requires Admissible(x, Struct) && Admissible(y, Struct) && Admissible(z, Struct)
    requires Precedes(x, y, Struct) && Precedes(y, z, Struct)
    ensures Precedes(x, z, Struct)
  {
    TimeOrderedByNanos(x, y);
    TimeOrderedByNanos(y, z);
    TimeOrderedByNanos(x, z);
  }

  lemma ByteSlicesTransitive(x: Value, y: Value, z: Value)
    requires Admissible(x, Slice) && Admissible(y, Slice) && Admissible(z, Slice)
    requires Precedes(x, y, Slice) && Precedes(y, z, Slice)
    ensures Precedes(x, z, Slice)
  {
    ByteSlicesCompareLexicographically(x, y);
    ByteSlicesCompareLexicographically(y, z);
    ByteSlicesCompareLexicographically(x, z);
    StringLessTransitive(Bytes(x), Bytes(y), Bytes(z));
  }

  /** The strict order is transitive. */
  lemma PrecedesTransitive(x: Value, y: Value, z: Value, kind: Kind)
    requires Admissible(x, kind) && Admissible(y, kind) && Admissible(z, kind)
    requires Precedes(x, y, kind) && Precedes(y, z, kind)
    ensures Precedes(x, z, kind)
  {
    if kind.IsInteger() {
      IntegersTransitive(x, y, z, kind);
    } else if kind.IsFloat() {
      FloatsTransitive(x, y, z, kind);
    } else if kind == String {
      StringsTransitive(x, y, z);
    } else if kind == Struct {
      TimesTransitive(x, y, z);
    } else if kind == Slice {
      ByteSlicesTransitive(x, y, z);
    }
  }

  /** The non-strict order is transitive. */
  lemma AtMostTransitive(x: Value, y: Value, z: Value, kind: Kind)
    requires Admissible(x, kind) && Admissible(y, kind) && Admissible(z, kind)
    requires AtMost(x, y, kind) && AtMost(y, z, kind)
    ensures AtMost(x, z, kind)
  {
    if Compare(x, y, kind) == Cmp(CompareEqual, true) {
      EqualVerdictMeansIdentical(x, y, kind);
    } else if Compare(y, z, kind) == Cmp(CompareEqual, true) {
      EqualVerdictMeansIdentical(y, z, kind);
    } else {
      PrecedesTransitive(x, y, z, kind);
    }
  }

  /** Once both operands are known comparable, the swapped comparison is
      the flipped one: neither order can panic. */
  lemma SwapComparable(x: Value, y: Value, kind: Kind)
    requires Admissible(x, kind) && Admissible(y, kind)
    requires Compare(x, y, kind).Cmp? && Compare(x, y, kind).comparable
    ensures Compare(y, x, kind) == Flip(Compare(x, y, kind))
  {
    CompareAntisymmetric(x, y, kind);
  }

  /** The reversed strict order is transitive. */
  lemma FollowsTransitive(x: Value, y: Value, z: Value, kind: Kind)
    requires Admissible(x, kind) && Admissible(y, kind) && Admissible(z, kind)
    requires Compare(x, y, kind) == Cmp(CompareGreater, true) && Compare(y, z, kind) == Cmp(CompareGreater, true)
    ensures Compare(x, z, kind) == Cmp(CompareGreater, true)
  {
    SwapComparable(x, y, kind);
    SwapComparable(y, z, kind);
    PrecedesTransitive(z, y, x, kind);
    SwapComparable(z, x, kind);
  }

  /** `containsValue`: a linear scan that returns at the first match. */
  method ContainsValue(values: seq<CompareType>, value: CompareType) returns (found: bool)
    ensures found <==> value in values
  {
    for i := 0 to |values|
      invariant value !in values[..i]
    {
      if values[i] == value {
        return true;
      }
    }
    return false;
  }

  /** Which fixed failure message an assertion formats. */
  datatype Message =
    | NotGreater | NotGreaterOrEqual | NotLess | NotLessOrEqual | NotPositive | NotNegative

  /** Why an assertion fails: what it hands to the test sink, with the
      operands that appear in the message, in their order. */
  datatype Failure =
    | KindMismatch                                        // "Elements should be the same type"
    | NotComparable(kind: Kind)                           // "Can not compare type ..."
    | ElementsNotComparable                               // the collection form of the above
    | Disallowed(message: Message, first: Value, second: Value)
    | NotCollection(kind: Kind)                           // "Can not test elements in order ..."

  /** The result of an assertion: it holds, it fails with a reason, or Go panics. */
  datatype Outcome = Pass | Fail(failure: Failure) | Panic

  /** What `compareTwoValues(e1, e2, allowed, message)` does. */
  function ComparisonOutcome(e1: Value, e2: Value, allowed: seq<CompareType>, message: Message): Outcome
    requires WellFormed(e1) && WellFormed(e2)
  {
    if KindOf(e1) != KindOf(e2) then Fail(KindMismatch)
    else
      match Compare(e1, e2, KindOf(e1))
      case ConvertPanic => Panic
      case Cmp(v, c) =>
        if !c then Fail(NotComparable(KindOf(e1)))
        else if v in allowed then Pass
        else Fail(Disallowed(message, e1, e2))
  }

  /** Values of different kinds fail, whatever the allowed verdicts. */
  lemma MismatchedKindsAlwaysFail(e1: Value, e2: Value, allowed: seq<CompareType>, message: Message)
    requires WellFormed(e1) && WellFormed(e2) && KindOf(e1) != KindOf(e2)
    ensures ComparisonOutcome(e1, e2, allowed, message) == Fail(KindMismatch)
  {
  }

  /** With equal kinds the assertion holds exactly when the values are
      comparable and the verdict is allowed; otherwise it names why not. */
  lemma ComparisonPassIff(e1: Value, e2: Value, allowed: seq<CompareType>, message: Message)
    requires WellFormed(e1) && WellFormed(e2) && KindOf(e1) == KindOf(e2)
    ensures var r := Compare(e1, e2, KindOf(e1));
      (ComparisonOutcome(e1, e2, allowed, message) == Pass <==> r.Cmp? && r.comparable && r.verdict in allowed) &&
      (r.Cmp? && !r.comparable ==> ComparisonOutcome(e1, e2, allowed, message) == Fail(NotComparable(KindOf(e1)))) &&
      (r.Cmp? && r.comparable && r.verdict !in allowed ==>
         ComparisonOutcome(e1, e2, allowed, message) == Fail(Disallowed(message, e1, e2)))
  {
  }

  /** On equal operands the strict assertions fail and the non-strict ones hold. */
  lemma EqualOperandsSeparateStrictFromNonStrict(x: Value)
    requires WellFormed(x) && Orderable(x, KindOf(x)) && !(x.FloatV? && x.f.NaN?)
    ensures ComparisonOutcome(x, x, [CompareGreater], NotGreater) == Fail(Disallowed(NotGreater, x, x))
    ensures ComparisonOutcome(x, x, [CompareGreater, CompareEqual], NotGreaterOrEqual) == Pass
    ensures ComparisonOutcome(x, x, [CompareLess], NotLess) == Fail(Disallowed(NotLess, x, x))
    ensures ComparisonOutcome(x, x, [CompareLess, CompareEqual], NotLessOrEqual) == Pass
  {
    CompareReflexive(x, KindOf(x));
  }

  /** `compareTwoValues`: same kinds, comparable, verdict among the allowed. */
  method CompareTwoValues(e1: Value, e2: Value, allowed: seq<CompareType>, message: Message) returns (o: Outcome)
    requires WellFormed(e1) && WellFormed(e2)
    ensures o == ComparisonOutcome(e1, e2, allowed, message)
  {
    var e1Kind := KindOf(e1);
    var e2Kind := KindOf(e2);
    if e1Kind != e2Kind {
      return Fail(KindMismatch);
    }
    var r := Compare(e1, e2, e1Kind);
    ComparisonPassIff(e1, e2, allowed, message);
    match r
    case ConvertPanic =>
      return Panic;
    case Cmp(compareResult, isComparable) =>
      if !isComparable {
        return Fail(NotComparable(e1Kind));
      }
      var ok := ContainsValue(allowed, compareResult);
      if !ok {
        return Fail(Disallowed(message, e1, e2));
      }
      return Pass;
  }

  /** Both operands have one kind and the engine orders them with this verdict. */
  predicate HasVerdict(e1: Value, e2: Value, verdict: CompareType)
    requires WellFormed(e1) && WellFormed(e2)
  {
    KindOf(e1) == KindOf(e2) && Compare(e1, e2, KindOf(e1)) == Cmp(verdict, true)
  }

  method Greater(e1: Value, e2: Value) returns (o: Outcome)
    requires WellFormed(e1) && WellFormed(e2)
    ensures o == ComparisonOutcome(e1, e2, [CompareGreater], NotGreater)
    ensures o == Pass <==> HasVerdict(e1, e2, CompareGreater)
  {
    o := CompareTwoValues(e1, e2, [CompareGreater], NotGreater);
  }

  method GreaterOrEqual(e1: Value, e2: Value) returns (o: Outcome)
    requires WellFormed(e1) && WellFormed(e2)
    ensures o == ComparisonOutcome(e1, e2, [CompareGreater, CompareEqual], NotGreaterOrEqual)
    ensures o == Pass <==> HasVerdict(e1, e2, CompareGreater) || HasVerdict(e1, e2, CompareEqual)
  {
    o := CompareTwoValues(e1, e2, [CompareGreater, CompareEqual], NotGreaterOrEqual);
  }

  method Less(e1: Value, e2: Value) returns (o: Outcome)
    requires WellFormed(e1) && WellFormed(e2)
    ensures o == ComparisonOutcome(e1, e2, [CompareLess], NotLess)
    ensures o == Pass <==> HasVerdict(e1, e2, CompareLess)
  {
    o := CompareTwoValues(e1, e2, [CompareLess], NotLess);
  }

  method LessOrEqual(e1: Value, e2: Value) returns (o: Outcome)
    requires WellFormed(e1) && WellFormed(e2)
    ensures o == ComparisonOutcome(e1, e2, [CompareLess, CompareEqual], NotLessOrEqual)
    ensures o == Pass <==> HasVerdict(e1, e2, CompareLess) || HasVerdict(e1, e2, CompareEqual)
  {
    o := CompareTwoValues(e1, e2, [CompareLess, CompareEqual], NotLessOrEqual);
  }

  /** `Positive` and `Negative` compare a value with the zero of its own
      type; asking for the zero of the untyped nil panics. */
  function AgainstZero(e: Value, allowed: seq<CompareType>, message: Message): Outcome
    requires WellFormed(e)
  {
    if KindOf(e) == Invalid then Panic
    else
      ZeroWellFormed(e);
      ComparisonOutcome(e, Zero(e), allowed, message)
  }

  method Positive(e: Value) returns (o: Outcome)
    requires WellFormed(e)
    ensures o == AgainstZero(e, [CompareGreater], NotPositive)
  {
    if KindOf(e) == Invalid {
      return Panic;
    }
    var zero := Zero(e);
    ZeroWellFormed(e);
    o := CompareTwoValues(e, zero, [CompareGreater], NotPositive);
  }

  method Negative(e: Value) returns (o: Outcome)
    requires WellFormed(e)
    ensures o == AgainstZero(e, [CompareLess], NotNegative)
  {
    if KindOf(e) == Invalid {
      return Panic;
    }
    var zero := Zero(e);
    ZeroWellFormed(e);
    o := CompareTwoValues(e, zero, [CompareLess], NotNegative);
  }

  /** An integer is Positive exactly when it is above zero and Negative exactly
      when it is below; zero is neither. */
  lemma IntegerSignAssertions(e: Value)
    requires WellFormed(e) && e.IntV?
    ensures AgainstZero(e, [CompareGreater], NotPositive) == Pass <==> e.n > 0
    ensures AgainstZero(e, [CompareLess], NotNegative) == Pass <==> e.n < 0
    ensures e.n == 0 ==>
      AgainstZero(e, [CompareGreater], NotPositive) == Fail(Disallowed(NotPositive, e, e)) &&
      AgainstZero(e, [CompareLess], NotNegative) == Fail(Disallowed(NotNegative, e, e))
  {
    ZeroWellFormed(e);
    IntegerVerdictIsSign(e, Zero(e), e.kind);
  }

  /** A float is Positive exactly when it lies above 0.0 and Negative exactly
      when below; NaN fails both as not comparable. */
  lemma FloatSignAssertions(e: Value)
    requires WellFormed(e) && e.FloatV?
    ensures AgainstZero(e, [CompareGreater], NotPositive) == Pass <==> FloatLess(Finite(0.0), e.f)
    ensures AgainstZero(e, [CompareLess], NotNegative) == Pass <==> FloatLess(e.f, Finite(0.0))
    ensures e.f.NaN? ==> AgainstZero(e, [CompareGreater], NotPositive) == Fail(NotComparable(e.kind))
  {
    ZeroWellFormed(e);
    FloatVerdict(e, Zero(e), e.kind);
  }

  /** A time is Positive exactly when its `UnixNano` count is above the zero
      time's wrapped count, and Negative exactly when it is below. The order
      of the counts is the calendar order only for instants between the
      years 1678 and 2262; the zero time itself (year 1) wraps around. */
  lemma TimeSignAssertions(e: Value)
    requires WellFormed(e) && e.TimeV?
    ensures AgainstZero(e, [CompareGreater], NotPositive) == Pass <==> e.nanos > ZeroTimeNanos
    ensures AgainstZero(e, [CompareLess], NotNegative) == Pass <==> e.nanos < ZeroTimeNanos
  {
    ZeroWellFormed(e);
    TimeOrderedByNanos(e, Zero(e));
  }

  /** The zero time (year 1) wraps to a count above that of an instant in
      1700 whose count is -8.5e18, so it compares Greater, `Greater` holds,
      and the 1700 instant is Negative. */
  lemma ZeroTimeWrapsAboveEarlyInstants()
    ensures Compare(TimeV(ZeroTimeNanos), TimeV(-8_500_000_000_000_000_000), Struct) == Cmp(CompareGreater, true)
    ensures ComparisonOutcome(TimeV(ZeroTimeNanos), TimeV(-8_500_000_000_000_000_000), [CompareGreater], NotGreater) == Pass
    ensures AgainstZero(TimeV(-8_500_000_000_000_000_000), [CompareLess], NotNegative) == Pass
  {
    TimeSignAssertions(TimeV(-8_500_000_000_000_000_000));
  }

  /** The two-value cases the tests exercise. */
  lemma TwoValueExamples()
    ensures ComparisonOutcome(IntV(Int, 2), IntV(Int, 1), [CompareGreater], NotGreater) == Pass
    ensures ComparisonOutcome(IntV(Int, 1), IntV(Int, 1), [CompareGreater], NotGreater)
         == Fail(Disallowed(NotGreater, IntV(Int, 1), IntV(Int, 1)))
    ensures ComparisonOutcome(IntV(Int, 1), IntV(Int, 1), [CompareGreater, CompareEqual], NotGreaterOrEqual) == Pass
    ensures ComparisonOutcome(IntV(Int, 2), IntV(Int, 1), [CompareLess], NotLess)
         == Fail(Disallowed(NotLess, IntV(Int, 2), IntV(Int, 1)))
    ensures ComparisonOutcome(IntV(Int, 123), StrV([97, 98, 99]), [CompareLess, CompareEqual, CompareGreater], NotLess)
         == Fail(KindMismatch)
  {
    IntegerVerdictIsSign(IntV(Int, 2), IntV(Int, 1), Int);
    IntegerVerdictIsSign(IntV(Int, 1), IntV(Int, 1), Int);
  }

  /** The sign cases the tests exercise, and `Positive` on the untyped nil. */
  lemma SignExamples()
    ensures AgainstZero(IntV(Int, 0), [CompareGreater], NotPositive) != Pass
    ensures AgainstZero(IntV(Int, 0), [CompareLess], NotNegative) != Pass
    ensures AgainstZero(IntV(Int, -1), [CompareLess], NotNegative) == Pass
    ensures AgainstZero(OtherV(Invalid), [CompareGreater], NotPositive) == Panic
  {
    IntegerSignAssertions(IntV(Int, 0));
    IntegerSignAssertions(IntV(Int, -1));
  }
}
