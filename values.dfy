/** The run-time values the assertions inspect, reduced to what the ordering
    engine can observe of them: the reflection kind and, for the orderable
    kinds, the payload that is compared. A named type (`type customInt int`)
    is indistinguishable here from its underlying type, because the engine
    looks at the kind and then converts to the underlying type. The one
    exception is the element type of a slice, which decides whether the
    slice converts to `[]byte`; `ListV` records it. */
module Values {

  /** The reflection kinds of Go's `reflect.Kind`, in Go's own order. */
  datatype Kind =
    | Invalid | Bool
    | Int | Int8 | Int16 | Int32 | Int64
    | Uint | Uint8 | Uint16 | Uint32 | Uint64 | Uintptr
    | Float32 | Float64 | Complex64 | Complex128
    | Array | Chan | Func | Interface | Map | Pointer | Slice | String | Struct
    | UnsafePointer
  {
    predicate IsSigned() { Int? || Int8? || Int16? || Int32? || Int64? }
    predicate IsUnsigned() { Uint? || Uint8? || Uint16? || Uint32? || Uint64? }
    /** The integer kinds the engine orders; `Uintptr` is not one of them. */
    predicate IsInteger() { IsSigned() || IsUnsigned() }
    predicate IsFloat() { Float32? || Float64? }
    predicate IsCollection() { Slice? || Array? }
  }

  type byte = x: int | 0 <= x < 256

  const MinInt64: int := -0x8000_0000_0000_0000
  const MaxInt64: int := 0x7FFF_FFFF_FFFF_FFFF

  /** The least and the greatest value of an integer kind; `int` and `uint`
      are taken to be 64 bits wide. */
  function MinOf(k: Kind): int
    requires k.IsInteger()
  {
    match k
    case Int8 => -0x80
    case Int16 => -0x8000
    case Int32 => -0x8000_0000
    case Int | Int64 => MinInt64
    case _ => 0
  }

  function MaxOf(k: Kind): int
    requires k.IsInteger()
  {
    match k
    case Int8 => 0x7F
    case Int16 => 0x7FFF
    case Int32 => 0x7FFF_FFFF
    case Int | Int64 => MaxInt64
    case Uint8 => 0xFF
    case Uint16 => 0xFFFF
    case Uint32 => 0xFFFF_FFFF
    case _ => 0xFFFF_FFFF_FFFF_FFFF
  }

  /** The range of values an integer kind can hold. */
  predicate InRange(k: Kind, n: int)
    requires k.IsInteger()
  {
    MinOf(k) <= n <= MaxOf(k)
  }

  /** An IEEE-754 value as far as ordering goes: comparisons between floats
      are exact, so a finite float is its real value (and -0 is +0). */
  datatype Float = Finite(r: real) | PosInf | NegInf | NaN

  /** A Go value as the engine sees it.
      - IntV: any integer kind (named or not) with its numeric value;
      - FloatV: a float32 or float64 kind;
      - StrV: a string kind; Go strings are byte sequences;
      - TimeV: a struct convertible to `time.Time`, represented by the
        nanosecond count `UnixNano` reports for it;
      - ListV: a slice or an array with its element kind, whether its element
        type is `byte` itself, and its elements (for an element kind of
        Interface the elements are the dynamic values held). A named element
        type (`type myByte uint8`) has kind Uint8 but is not `byte`, and Go
        does not convert `[]myByte` to `[]byte`;
      - OtherV: every other value, of which only the kind is seen; `OtherV(Invalid)`
        is the untyped nil, and `OtherV(Struct)` a struct that is not a time. */
  datatype Value =
    | IntV(kind: Kind, n: int)
    | FloatV(kind: Kind, f: Float)
    | StrV(s: seq<byte>)
    | TimeV(nanos: int)
    | ListV(kind: Kind, elemKind: Kind, elemIsByte: bool, elems: seq<Value>)
    | OtherV(kind: Kind)

  /** `reflect.ValueOf(v).Kind()`. */
  function KindOf(v: Value): Kind
  {
    match v
    case IntV(k, _) => k
    case FloatV(k, _) => k
    case StrV(_) => String
    case TimeV(_) => Struct
    case ListV(k, _, _, _) => k
    case OtherV(k) => k
  }

  /** Whether a struct value converts to `time.Time` (a time or a named time type). */
  predicate IsTime(v: Value) { v.TimeV? }

  /** Whether a value converts to `[]byte`: a slice (named or not) whose
      element type is `byte`. */
  predicate IsByteSlice(v: Value) { v.ListV? && v.kind == Slice && v.elemIsByte }

  /** Two values of one Go type, as far as the kinds can tell: the same kind
      and, for structs and collections, the same convertibility to time and
      the same element type as far as it is recorded. */
  predicate SameType(a: Value, b: Value)
  {
    KindOf(a) == KindOf(b) && (IsTime(a) <==> IsTime(b)) &&
    (a.ListV? && b.ListV? ==> a.elemKind == b.elemKind && a.elemIsByte == b.elemIsByte)
  }

  /** The values a Go program can hold: integers in range, time counts in the
      int64 range, and collections whose elements all share the element type. */
  predicate WellFormed(v: Value)
    decreases v
  {
    match v
    case IntV(k, n) => k.IsInteger() && InRange(k, n)
    case FloatV(k, _) => k.IsFloat()
    case StrV(_) => true
    case TimeV(t) => MinInt64 <= t <= MaxInt64
    case ListV(k, ek, b, es) =>
      k.IsCollection() && ek != Invalid && (b ==> ek == Uint8) &&
      (forall i :: 0 <= i < |es| ==> WellFormed(es[i])) &&
      (ek != Interface ==> forall i :: 0 <= i < |es| ==> KindOf(es[i]) == ek && SameType(es[i], es[0]))
    case OtherV(k) =>
      !k.IsInteger() && !k.IsFloat() && !k.IsCollection() && k != String && k != Interface
  }

  /** What a value may be when the engine is asked to compare it at `kind`:
      a value of that kind, or anything when the kind is Interface (the static
      element kind of a `[]any`). */
  predicate Admissible(v: Value, kind: Kind)
  {
    WellFormed(v) && (kind == Interface || KindOf(v) == kind)
  }

  lemma IntegerKindIsIntV(v: Value)
    requires WellFormed(v) && KindOf(v).IsInteger()
    ensures v.IntV? && InRange(v.kind, v.n)
  {
  }

  lemma ByteIsIntV(v: Value)
    requires WellFormed(v) && KindOf(v) == Uint8
    ensures v.IntV? && 0 <= v.n < 256
  {
  }

  /** The bytes held by a byte slice. */
  function Bytes(v: Value): (b: seq<byte>)
    requires WellFormed(v) && IsByteSlice(v)
    ensures |b| == |v.elems|
    ensures forall i :: 0 <= i < |b| ==> v.elems[i] == IntV(Uint8, b[i])
  {
    var es := v.elems;
    assert forall i :: 0 <= i < |es| ==> WellFormed(es[i]) && KindOf(es[i]) == Uint8;
    forall i | 0 <= i < |es| ensures es[i].IntV? && 0 <= es[i].n < 256 {
      ByteIsIntV(es[i]);
    }
    seq(|es|, i requires 0 <= i < |es| => es[i].n as byte)
  }

  /** The nanosecond count `UnixNano` reports for the zero `time.Time`
      (1 January of year 1): -62135596800 * 10^9 wrapped to int64. */
  const ZeroTimeNanos: int := -6795364578871345152

  /** `reflect.Zero(reflect.TypeOf(v))`: the zero value of v's type. For
      the untyped nil (kind Invalid) Go panics instead; the callers check. */
  function Zero(v: Value): (z: Value)
    ensures KindOf(z) == KindOf(v)
    ensures v.IntV? ==> z == IntV(v.kind, 0)
    ensures v.FloatV? ==> z == FloatV(v.kind, Finite(0.0))
    ensures v.StrV? ==> z == StrV([])
    ensures v.TimeV? ==> z == TimeV(ZeroTimeNanos)
    ensures v.ListV? ==> z.ListV? && z.elemKind == v.elemKind && z.elemIsByte == v.elemIsByte
    ensures v.ListV? && v.kind == Slice ==> z.elems == []
    ensures v.ListV? && v.kind != Slice ==> |z.elems| == |v.elems|
    ensures v.OtherV? ==> z == v
    decreases v
  {
    match v
    case IntV(k, _) => IntV(k, 0)
    case FloatV(k, _) => FloatV(k, Finite(0.0))
    case StrV(_) => StrV([])
    case TimeV(_) => TimeV(ZeroTimeNanos)
    case ListV(k, ek, b, es) =>
      if k == Slice then ListV(Slice, ek, b, [])
      else ListV(k, ek, b, seq(|es|, i requires 0 <= i < |es| => if ek == Interface then OtherV(Invalid) else Zero(es[i])))
    case OtherV(k) => OtherV(k)
  }

  /** Replacing each element of a collection by a well-formed value of the
      same type keeps the collection well-formed. */
  lemma ElementwiseWellFormed(k: Kind, ek: Kind, b: bool, es: seq<Value>, zs: seq<Value>)
    requires WellFormed(ListV(k, ek, b, es)) && |zs| == |es|
    requires forall i :: 0 <= i < |es| ==> WellFormed(zs[i]) && SameType(es[i], zs[i])
    ensures WellFormed(ListV(k, ek, b, zs))
  {
    if ek != Interface {
      forall i | 0 <= i < |zs| ensures KindOf(zs[i]) == ek && SameType(zs[i], zs[0]) {
        assert SameType(es[i], zs[i]) && SameType(es[0], zs[0]) && SameType(es[i], es[0]);
      }
    }
  }

  /** The zero value is a well-formed value of the same type. */
  lemma {:induction false} ZeroWellFormed(v: Value)
    requires WellFormed(v)
    ensures WellFormed(Zero(v)) && SameType(v, Zero(v))
    decreases v
  {
    match v
    case ListV(k, ek, b, es) =>
      if k != Slice && ek != Interface {
        var zs := Zero(v).elems;
        forall i | 0 <= i < |es| ensures WellFormed(zs[i]) && SameType(es[i], zs[i]) {
          ZeroWellFormed(es[i]);
        }
        ElementwiseWellFormed(k, ek, b, es, zs);
      }
    case _ =>
  }
}
