/** The monotonicity assertions: `isOrdered` and the four entry points
    `IsIncreasing`, `IsNonIncreasing`, `IsDecreasing`, `IsNonDecreasing`. */
module AssertionOrder {
  import opened Values
  import opened AssertionCompare

  lemma ElementsAdmissible(collection: Value)
    requires WellFormed(collection) && collection.ListV?
    ensures forall j :: 0 <= j < |collection.elems| ==> Admissible(collection.elems[j], collection.elemKind)
  {
  }

  /** Every element of the collection can be compared at kind `kind`. */
  predicate AllAdmissible(es: seq<Value>, kind: Kind)
  {
    forall j :: 0 <= j < |es| ==> Admissible(es[j], kind)
  }

  /** What one step of the scan decides about the pair (prev, cur). */
  function PairOutcome(prev: Value, cur: Value, kind: Kind, allowed: seq<CompareType>, message: Message): (o: Outcome)
    requires Admissible(prev, kind) && Admissible(cur, kind)
    ensures o == Panic <==> ConvertPanics(prev, cur, kind)
    ensures o == Pass <==> Compare(prev, cur, kind).Cmp? && Compare(prev, cur, kind).comparable &&
                           Compare(prev, cur, kind).verdict in allowed
    ensures o.Fail? ==> o.failure == ElementsNotComparable || o.failure == Disallowed(message, prev, cur)
  {
    match Compare(prev, cur, kind)
    case ConvertPanic => Panic
    case Cmp(v, c) =>
      if !c then Fail(ElementsNotComparable)
      else if v in allowed then Pass
      else Fail(Disallowed(message, prev, cur))
  }

  /** The outcome of the i-th adjacent pair, (es[i - 1], es[i]). */
  function PairAt(es: seq<Value>, kind: Kind, allowed: seq<CompareType>, message: Message, i: nat): Outcome
    requires 1 <= i < |es| && AllAdmissible(es, kind)
  {
    PairOutcome(es[i - 1], es[i], kind, allowed, message)
  }

  /** The outcome of every adjacent pair, in order: entry i - 1 is PairAt(i). */
  function PairOutcomes(es: seq<Value>, kind: Kind, allowed: seq<CompareType>, message: Message): (outs: seq<Outcome>)
    requires |es| >= 1 && AllAdmissible(es, kind)
    ensures |outs| == |es| - 1
    ensures forall i :: 1 <= i < |es| ==> PairAt(es, kind, allowed, message, i) == outs[i - 1]
  {
    var outs := seq(|es| - 1, i requires 0 <= i < |es| - 1 => PairAt(es, kind, allowed, message, i + 1));
    assert forall i :: 1 <= i < |es| ==> outs[i - 1] == PairAt(es, kind, allowed, message, i);
    outs
  }

  /** The first outcome that is not Pass, or Pass when there is none. */
  function FirstNonPass(outs: seq<Outcome>): Outcome
  {
    if outs == [] then Pass
    else if outs[0] != Pass then outs[0]
    else FirstNonPass(outs[1..])
  }

  /** The scan passes exactly when every step passes. */
  lemma {:induction false} FirstNonPassIff(outs: seq<Outcome>)
    ensures FirstNonPass(outs) == Pass <==> forall i :: 0 <= i < |outs| ==> outs[i] == Pass
  {
    if outs != [] && outs[0] == Pass {
      FirstNonPassIff(outs[1..]);
      assert forall i :: 1 <= i < |outs| ==> outs[i] == outs[1..][i - 1];
    }
  }

  /** A failing scan reports the first step that does not pass. */
  lemma {:induction false} FirstNonPassIndex(outs: seq<Outcome>) returns (k: nat)
    requires FirstNonPass(outs) != Pass
    ensures k < |outs| && outs[k] != Pass && FirstNonPass(outs) == outs[k]
    ensures forall j :: 0 <= j < k ==> outs[j] == Pass
  {
    if outs[0] != Pass {
      k := 0;
    } else {
      var k' := FirstNonPassIndex(outs[1..]);
      k := k' + 1;
      assert forall j :: 1 <= j < k ==> outs[j] == outs[1..][j - 1];
    }
  }

  /** The first outcome that is not Pass is the one reported. */
  lemma {:induction false} FirstNonPassAt(outs: seq<Outcome>, k: nat)
    requires k < |outs| && outs[k] != Pass
    requires forall j :: 0 <= j < k ==> outs[j] == Pass
    ensures FirstNonPass(outs) == outs[k]
  {
    if k > 0 {
      assert forall j :: 0 <= j < k - 1 ==> outs[1..][j] == outs[j + 1];
      FirstNonPassAt(outs[1..], k - 1);
    }
  }

  /** What `isOrdered(collection, allowed, message)` does. Asking the kind of the
      untyped nil panics; every pair is compared at the element kind, which
      is the kind of element 0. */
  function OrderedOutcome(collection: Value, allowed: seq<CompareType>, message: Message): Outcome
    requires WellFormed(collection)
  {
    if KindOf(collection) == Invalid then Panic
    else if !collection.ListV? then Fail(NotCollection(KindOf(collection)))
    else if |collection.elems| <= 1 then Pass
    else
      ElementsAdmissible(collection);
      FirstNonPass(PairOutcomes(collection.elems, collection.elemKind, allowed, message))
  }

  /** `isOrdered`: walk the adjacent pairs, stopping at the first whose verdict
      is not allowed. */
  method IsOrdered(collection: Value, allowed: seq<CompareType>, message: Message) returns (o: Outcome)
    requires WellFormed(collection)
    ensures o == OrderedOutcome(collection, allowed, message)
  {
    var objKind := KindOf(collection);
    if objKind == Invalid {
      return Panic;
    }
    if !collection.ListV? {
      return Fail(NotCollection(objKind));
    }
    var es := collection.elems;
    var objLen := |es|;
    if objLen <= 1 {
      return Pass;
    }
    ElementsAdmissible(collection);
    var value := es[0];
    var firstValueKind := collection.elemKind;
    ghost var outs := PairOutcomes(es, firstValueKind, allowed, message);
    for i := 1 to objLen
      invariant value == es[i - 1]
      invariant FirstNonPass(outs) == FirstNonPass(outs[i - 1..])
    {
      assert outs[i - 1..][1..] == outs[i..];
      var prevValue := value;
      value := es[i];
      var r := Compare(prevValue, value, firstValueKind);
      if r.ConvertPanic? {
        return Panic;
      }
      if !r.comparable {
        return Fail(ElementsNotComparable);
      }
      var ok := ContainsValue(allowed, r.verdict);
      if !ok {
        return Fail(Disallowed(message, prevValue, value));
      }
    }
    return Pass;
  }

  method IsIncreasing(collection: Value) returns (o: Outcome)
    requires WellFormed(collection)
    ensures o == OrderedOutcome(collection, [CompareLess], NotLess)
  {
    o := IsOrdered(collection, [CompareLess], NotLess);
  }

  method IsNonIncreasing(collection: Value) returns (o: Outcome)
    requires WellFormed(collection)
    ensures o == OrderedOutcome(collection, [CompareEqual, CompareGreater], NotGreaterOrEqual)
  {
    o := IsOrdered(collection, [CompareEqual, CompareGreater], NotGreaterOrEqual);
  }

  method IsDecreasing(collection: Value) returns (o: Outcome)
    requires WellFormed(collection)
    ensures o == OrderedOutcome(collection, [CompareGreater], NotGreater)
  {
    o := IsOrdered(collection, [CompareGreater], NotGreater);
  }

  method IsNonDecreasing(collection: Value) returns (o: Outcome)
    requires WellFormed(collection)
    ensures o == OrderedOutcome(collection, [CompareLess, CompareEqual], NotLessOrEqual)
  {
    o := IsOrdered(collection, [CompareLess, CompareEqual], NotLessOrEqual);
  }

  /** Anything but a slice or an array fails (the untyped nil panics). */
  lemma NonCollectionFails(collection: Value, allowed: seq<CompareType>, message: Message)
    requires WellFormed(collection) && !collection.ListV? && KindOf(collection) != Invalid
    ensures OrderedOutcome(collection, allowed, message) == Fail(NotCollection(KindOf(collection)))
  {
  }

  /** An empty or one-element collection always passes. */
  lemma ShortCollectionPasses(collection: Value, allowed: seq<CompareType>, message: Message)
    requires WellFormed(collection) && collection.ListV? && |collection.elems| <= 1
    ensures OrderedOutcome(collection, allowed, message) == Pass
  {
  }

  /** The assertion holds exactly when the value is a collection and every
      adjacent pair (x[i-1], x[i]) is comparable with an allowed verdict. */
  lemma OrderedPassIff(collection: Value, allowed: seq<CompareType>, message: Message)
    requires WellFormed(collection)
    ensures OrderedOutcome(collection, allowed, message) == Pass <==>
      collection.ListV? && AllAdmissible(collection.elems, collection.elemKind) &&
      forall i :: 1 <= i < |collection.elems| ==>
        PairAt(collection.elems, collection.elemKind, allowed, message, i) == Pass
  {
    if collection.ListV? && |collection.elems| > 1 {
      ElementsAdmissible(collection);
      var es, kind := collection.elems, collection.elemKind;
      var outs := PairOutcomes(es, kind, allowed, message);
      FirstNonPassIff(outs);
      assert forall i :: 0 <= i < |outs| ==> outs[i] == PairAt(es, kind, allowed, message, i + 1);
    }
  }

  /** A failing collection reports the first adjacent pair that violates the
      allowed verdicts, as (previous, current); every pair before it passes. */
  lemma FirstViolationReported(collection: Value, allowed: seq<CompareType>, message: Message) returns (k: nat)
    requires WellFormed(collection) && collection.ListV?
    requires OrderedOutcome(collection, allowed, message) != Pass
    ensures 1 <= k < |collection.elems|
    ensures AllAdmissible(collection.elems, collection.elemKind)
    ensures forall j :: 1 <= j < k ==> PairAt(collection.elems, collection.elemKind, allowed, message, j) == Pass
    ensures OrderedOutcome(collection, allowed, message)
         == PairOutcome(collection.elems[k - 1], collection.elems[k], collection.elemKind, allowed, message)
    ensures OrderedOutcome(collection, allowed, message) != Pass
  {
    ElementsAdmissible(collection);
    var es, kind := collection.elems, collection.elemKind;
    var outs := PairOutcomes(es, kind, allowed, message);
    var k' := FirstNonPassIndex(outs);
    k := k' + 1;
    assert PairAt(es, kind, allowed, message, k) == outs[k'];
  }

  /** Conversely, when pair k is the first that does not pass, its outcome
      is the assertion's outcome. */
  lemma ViolationAtReported(collection: Value, allowed: seq<CompareType>, message: Message, k: nat)
    requires WellFormed(collection) && collection.ListV? && 1 <= k < |collection.elems|
    requires AllAdmissible(collection.elems, collection.elemKind)
    requires forall j :: 1 <= j < k ==> PairAt(collection.elems, collection.elemKind, allowed, message, j) == Pass
    requires PairAt(collection.elems, collection.elemKind, allowed, message, k) != Pass
    ensures OrderedOutcome(collection, allowed, message)
         == PairOutcome(collection.elems[k - 1], collection.elems[k], collection.elemKind, allowed, message)
  {
    var es, kind := collection.elems, collection.elemKind;
    var outs := PairOutcomes(es, kind, allowed, message);
    forall j | 0 <= j < k - 1 ensures outs[j] == Pass {
      assert outs[j] == PairAt(es, kind, allowed, message, j + 1);
    }
    assert outs[k - 1] == PairAt(es, kind, allowed, message, k);
    FirstNonPassAt(outs, k - 1);
  }

  /** The elements of a collection share one type, so the scan never hits
      the conversion panic of `compare`. */
  lemma CollectionsNeverPanic(collection: Value, allowed: seq<CompareType>, message: Message)
    requires WellFormed(collection) && collection.ListV?
    ensures OrderedOutcome(collection, allowed, message) != Panic
  {
    if OrderedOutcome(collection, allowed, message) == Panic {
      var k := FirstViolationReported(collection, allowed, message);
    }
  }

  /** With two elements or more and an element kind the engine does not order
      (a `[]any`, a slice of maps, ...) the first pair fails as not comparable. */
  lemma UnorderableElementsFail(collection: Value, allowed: seq<CompareType>, message: Message)
    requires WellFormed(collection) && collection.ListV? && |collection.elems| >= 2
    requires !Orderable(collection.elems[0], collection.elemKind)
    ensures OrderedOutcome(collection, allowed, message) == Fail(ElementsNotComparable)
  {
  }

  /** Allowing more verdicts never turns a passing collection into a failing one. */
  lemma WiderAllowedSetStillPasses(collection: Value, allowed: seq<CompareType>, message: Message,
                                   wider: seq<CompareType>, widerMessage: Message)
    requires WellFormed(collection)
    requires forall v :: v in allowed ==> v in wider
    requires OrderedOutcome(collection, allowed, message) == Pass
    ensures OrderedOutcome(collection, wider, widerMessage) == Pass
  {
    OrderedPassIff(collection, allowed, message);
    OrderedPassIff(collection, wider, widerMessage);
    var es, kind := collection.elems, collection.elemKind;
    forall i | 1 <= i < |es| ensures PairAt(es, kind, wider, widerMessage, i) == Pass {
      assert PairAt(es, kind, allowed, message, i) == Pass;
    }
  }

  /** A strictly increasing collection is non-decreasing; a strictly
      decreasing one is non-increasing. */
  lemma StrictImpliesNonStrict(collection: Value)
    requires WellFormed(collection)
    ensures OrderedOutcome(collection, [CompareLess], NotLess) == Pass ==>
            OrderedOutcome(collection, [CompareLess, CompareEqual], NotLessOrEqual) == Pass
    ensures OrderedOutcome(collection, [CompareGreater], NotGreater) == Pass ==>
            OrderedOutcome(collection, [CompareEqual, CompareGreater], NotGreaterOrEqual) == Pass
  {
    if OrderedOutcome(collection, [CompareLess], NotLess) == Pass {
      WiderAllowedSetStillPasses(collection, [CompareLess], NotLess, [CompareLess, CompareEqual], NotLessOrEqual);
    }
    if OrderedOutcome(collection, [CompareGreater], NotGreater) == Pass {
      WiderAllowedSetStillPasses(collection, [CompareGreater], NotGreater, [CompareEqual, CompareGreater], NotGreaterOrEqual);
    }
  }

  /** The four monotonicity assertions. */
  datatype Direction = Increasing | NonIncreasing | Decreasing | NonDecreasing

  /** The verdicts each assertion allows between neighbours. */
  function AllowedOf(d: Direction): seq<CompareType>
  {
    match d
    case Increasing => [CompareLess]
    case NonIncreasing => [CompareEqual, CompareGreater]
    case Decreasing => [CompareGreater]
    case NonDecreasing => [CompareLess, CompareEqual]
  }

  /** The message each assertion fails with. */
  function MessageOf(d: Direction): Message
  {
    match d
    case Increasing => NotLess
    case NonIncreasing => NotGreaterOrEqual
    case Decreasing => NotGreater
    case NonDecreasing => NotLessOrEqual
  }

  /** Whether the assertion allows the verdict v between neighbours. */
  predicate Allows(d: Direction, v: CompareType)
  {
    match d
    case Increasing => v == CompareLess
    case NonIncreasing => v == CompareEqual || v == CompareGreater
    case Decreasing => v == CompareGreater
    case NonDecreasing => v == CompareLess || v == CompareEqual
  }

  lemma AllowedOfIsAllows(d: Direction)
    ensures forall v :: v in AllowedOf(d) <==> Allows(d, v)
  {
  }

  /** x and y are comparable and their verdict is one the assertion allows. */
  predicate InOrder(x: Value, y: Value, kind: Kind, d: Direction)
    requires Admissible(x, kind) && Admissible(y, kind)
  {
    Compare(x, y, kind).Cmp? && Compare(x, y, kind).comparable && Allows(d, Compare(x, y, kind).verdict)
  }

  /** Each of the four orders is transitive. */
  lemma InOrderTransitive(x: Value, y: Value, z: Value, kind: Kind, d: Direction)
    requires Admissible(x, kind) && Admissible(y, kind) && Admissible(z, kind)
    requires InOrder(x, y, kind, d) && InOrder(y, z, kind, d)
    ensures InOrder(x, z, kind, d)
  {
    match d
    case Increasing => IncreasingTransitive(x, y, z, kind);
    case NonDecreasing => NonDecreasingTransitive(x, y, z, kind);
    case Decreasing => DecreasingTransitive(x, y, z, kind);
    case NonIncreasing => NonIncreasingTransitive(x, y, z, kind);
  }

  lemma IncreasingTransitive(x: Value, y: Value, z: Value, kind: Kind)
    requires Admissible(x, kind) && Admissible(y, kind) && Admissible(z, kind)
    requires InOrder(x, y, kind, Increasing) && InOrder(y, z, kind, Increasing)
    ensures InOrder(x, z, kind, Increasing)
  {
    var xy, yz, xz := Compare(x, y, kind), Compare(y, z, kind), Compare(x, z, kind);
    assert xy == Cmp(CompareLess, true) && yz == Cmp(CompareLess, true);
    PrecedesTransitive(x, y, z, kind);
    assert xz == Cmp(CompareLess, true);
  }

  lemma NonDecreasingTransitive(x: Value, y: Value, z: Value, kind: Kind)
    requires Admissible(x, kind) && Admissible(y, kind) && Admissible(z, kind)
    requires InOrder(x, y, kind, NonDecreasing) && InOrder(y, z, kind, NonDecreasing)
    ensures InOrder(x, z, kind, NonDecreasing)
  {
    AtMostTransitive(x, y, z, kind);
  }

  lemma DecreasingTransitive(x: Value, y: Value, z: Value, kind: Kind)
    requires Admissible(x, kind) && Admissible(y, kind) && Admissible(z, kind)
    requires InOrder(x, y, kind, Decreasing) && InOrder(y, z, kind, Decreasing)
    ensures InOrder(x, z, kind, Decreasing)
  {
    var xy, yz, xz := Compare(x, y, kind), Compare(y, z, kind), Compare(x, z, kind);
    assert xy == Cmp(CompareGreater, true) && yz == Cmp(CompareGreater, true);
    FollowsTransitive(x, y, z, kind);
    assert xz == Cmp(CompareGreater, true);
  }

  lemma NonIncreasingTransitive(x: Value, y: Value, z: Value, kind: Kind)
    requires Admissible(x, kind) && Admissible(y, kind) && Admissible(z, kind)
    requires InOrder(x, y, kind, NonIncreasing) && InOrder(y, z, kind, NonIncreasing)
    ensures InOrder(x, z, kind, NonIncreasing)
  {
    var xy, yz := Compare(x, y, kind), Compare(y, z, kind);
    if xy == Cmp(CompareEqual, true) {
      EqualVerdictMeansIdentical(x, y, kind);
    } else if yz == Cmp(CompareEqual, true) {
      EqualVerdictMeansIdentical(y, z, kind);
    } else {
      assert xy == Cmp(CompareGreater, true) && yz == Cmp(CompareGreater, true);
      FollowsTransitive(x, y, z, kind);
    }
  }

  /** Each of the four assertions passes on a collection exactly when every
      element is in the asserted order with every later one, not only with
      its neighbour. */
  lemma {:induction false} OrderedIsSorted(collection: Value, d: Direction)
    requires WellFormed(collection) && collection.ListV?
    ensures AllAdmissible(collection.elems, collection.elemKind)
    ensures OrderedOutcome(collection, AllowedOf(d), MessageOf(d)) == Pass <==>
      forall i, j :: 0 <= i < j < |collection.elems| ==>
        InOrder(collection.elems[i], collection.elems[j], collection.elemKind, d)
  {
    var es, kind := collection.elems, collection.elemKind;
    ElementsAdmissible(collection);
    OrderedPassIff(collection, AllowedOf(d), MessageOf(d));
    AllowedOfIsAllows(d);
    if OrderedOutcome(collection, AllowedOf(d), MessageOf(d)) == Pass {
      forall i, j | 0 <= i < j < |es| ensures InOrder(es[i], es[j], kind, d) {
        InOrderChain(es, kind, d, i, j);
      }
    } else {
      var k := FirstViolationReported(collection, AllowedOf(d), MessageOf(d));
    }
  }

  lemma {:induction false} InOrderChain(es: seq<Value>, kind: Kind, d: Direction, i: nat, j: nat)
    requires AllAdmissible(es, kind) && i < j < |es|
    requires forall m :: 1 <= m < |es| ==> PairAt(es, kind, AllowedOf(d), MessageOf(d), m) == Pass
    ensures InOrder(es[i], es[j], kind, d)
    decreases j - i
  {
    assert PairAt(es, kind, AllowedOf(d), MessageOf(d), j) == Pass;
    AllowedOfIsAllows(d);
    if i < j - 1 {
      InOrderChain(es, kind, d, i, j - 1);
      InOrderTransitive(es[i], es[j - 1], es[j], kind, d);
    }
  }

  /** Every number fits in an `int`. */
  predicate IntRange(ns: seq<int>)
  {
    forall i :: 0 <= i < |ns| ==> MinInt64 <= ns[i] <= MaxInt64
  }

  /** A `[]int` holding the given numbers. */
  function IntSlice(ns: seq<int>): (c: Value)
    requires IntRange(ns)
    ensures WellFormed(c) && c.ListV? && c.elemKind == Int && |c.elems| == |ns|
    ensures forall i :: 0 <= i < |ns| ==> c.elems[i] == IntV(Int, ns[i])
  {
    ListV(Slice, Int, false, seq(|ns|, i requires 0 <= i < |ns| => IntV(Int, ns[i])))
  }

  /** In a `[]int` each adjacent pair is decided by the sign of its difference. */
  lemma IntPairDecidedBySign(ns: seq<int>, allowed: seq<CompareType>, message: Message, i: nat)
    requires IntRange(ns) && 1 <= i < |ns|
    ensures AllAdmissible(IntSlice(ns).elems, Int)
    ensures PairAt(IntSlice(ns).elems, Int, allowed, message, i)
         == if Sign(ns[i - 1] - ns[i]) in allowed then Pass
            else Fail(Disallowed(message, IntV(Int, ns[i - 1]), IntV(Int, ns[i])))
  {
    var c := IntSlice(ns);
    ElementsAdmissible(c);
    IntegerVerdictIsSign(c.elems[i - 1], c.elems[i], Int);
  }

  /** A reference scan for `[]int`, on the numbers alone: from pair i on, the
      first pair whose difference has a sign outside `allowed`. */
  function IntScan(ns: seq<int>, allowed: seq<CompareType>, message: Message, i: nat): Outcome
    requires 1 <= i <= |ns|
    decreases |ns| - i
  {
    if i == |ns| then Pass
    else if Sign(ns[i - 1] - ns[i]) in allowed then IntScan(ns, allowed, message, i + 1)
    else Fail(Disallowed(message, IntV(Int, ns[i - 1]), IntV(Int, ns[i])))
  }

  lemma {:induction false} IntScanMatches(ns: seq<int>, allowed: seq<CompareType>, message: Message, i: nat)
    requires IntRange(ns) && 1 <= i <= |ns|
    ensures AllAdmissible(IntSlice(ns).elems, Int)
    ensures FirstNonPass(PairOutcomes(IntSlice(ns).elems, Int, allowed, message)[i - 1..])
         == IntScan(ns, allowed, message, i)
    decreases |ns| - i
  {
    ElementsAdmissible(IntSlice(ns));
    var outs := PairOutcomes(IntSlice(ns).elems, Int, allowed, message);
    if i < |ns| {
      IntPairDecidedBySign(ns, allowed, message, i);
      assert outs[i - 1..][0] == outs[i - 1];
      assert outs[i - 1..][1..] == outs[i..];
      IntScanMatches(ns, allowed, message, i + 1);
    }
  }

  /** On a `[]int`, `isOrdered` reports what the reference scan on the numbers
      reports. */
  lemma IntSliceOrdered(ns: seq<int>, allowed: seq<CompareType>, message: Message)
    requires IntRange(ns) && |ns| >= 1
    ensures OrderedOutcome(IntSlice(ns), allowed, message) == IntScan(ns, allowed, message, 1)
  {
    IntScanMatches(ns, allowed, message, 1);
    if |ns| > 1 {
      var outs := PairOutcomes(IntSlice(ns).elems, Int, allowed, message);
      assert outs[0..] == outs;
    }
  }

  /** `IsIncreasing([]int{1, 2, 3, 4, 5})` holds. */
  lemma IncreasingExample()
    ensures OrderedOutcome(IntSlice([1, 2, 3, 4, 5]), [CompareLess], NotLess) == Pass
  {
    IntSliceOrdered([1, 2, 3, 4, 5], [CompareLess], NotLess);
  }

  /** `IsIncreasing` fails on the first pair out of order, which it reports. */
  lemma NotIncreasingEqualExample()
    ensures OrderedOutcome(IntSlice([1, 1]), [CompareLess], NotLess)
         == Fail(Disallowed(NotLess, IntV(Int, 1), IntV(Int, 1)))
  {
    IntSliceOrdered([1, 1], [CompareLess], NotLess);
  }

  lemma NotIncreasingFirstExample()
    ensures OrderedOutcome(IntSlice([2, 1, 3, 4, 5, 6, 7]), [CompareLess], NotLess)
         == Fail(Disallowed(NotLess, IntV(Int, 2), IntV(Int, 1)))
  {
    IntSliceOrdered([2, 1, 3, 4, 5, 6, 7], [CompareLess], NotLess);
  }

  lemma NotIncreasingLateExample()
    ensures OrderedOutcome(IntSlice([-1, 0, 2, 1]), [CompareLess], NotLess)
         == Fail(Disallowed(NotLess, IntV(Int, 2), IntV(Int, 1)))
  {
    IntSliceOrdered([-1, 0, 2, 1], [CompareLess], NotLess);
  }

  /** `IsNonIncreasing`: [5, 4, 4, 3, 2, 1] and [1, 1] hold, [1, 2] does not. */
  lemma NonIncreasingExample()
    ensures OrderedOutcome(IntSlice([5, 4, 4, 3, 2, 1]), [CompareEqual, CompareGreater], NotGreaterOrEqual) == Pass
  {
    IntSliceOrdered([5, 4, 4, 3, 2, 1], [CompareEqual, CompareGreater], NotGreaterOrEqual);
  }

  lemma NonIncreasingEqualExample()
    ensures OrderedOutcome(IntSlice([1, 1]), [CompareEqual, CompareGreater], NotGreaterOrEqual) == Pass
  {
    IntSliceOrdered([1, 1], [CompareEqual, CompareGreater], NotGreaterOrEqual);
  }

  lemma NotNonIncreasingExample()
    ensures OrderedOutcome(IntSlice([1, 2]), [CompareEqual, CompareGreater], NotGreaterOrEqual)
         == Fail(Disallowed(NotGreaterOrEqual, IntV(Int, 1), IntV(Int, 2)))
  {
    IntSliceOrdered([1, 2], [CompareEqual, CompareGreater], NotGreaterOrEqual);
  }

  /** `IsDecreasing([]int{5, 4, 3, 1, 2})` reports the pair (1, 2), and
      `IsDecreasing([]int{1, 1})` the pair (1, 1). */
  lemma NotDecreasingLateExample()
    ensures OrderedOutcome(IntSlice([5, 4, 3, 1, 2]), [CompareGreater], NotGreater)
         == Fail(Disallowed(NotGreater, IntV(Int, 1), IntV(Int, 2)))
  {
    IntSliceOrdered([5, 4, 3, 1, 2], [CompareGreater], NotGreater);
  }

  lemma NotDecreasingEqualExample()
    ensures OrderedOutcome(IntSlice([1, 1]), [CompareGreater], NotGreater)
         == Fail(Disallowed(NotGreater, IntV(Int, 1), IntV(Int, 1)))
  {
    IntSliceOrdered([1, 1], [CompareGreater], NotGreater);
  }

  /** `IsNonDecreasing([]int{1, 1})` holds. */
  lemma NonDecreasingExample()
    ensures OrderedOutcome(IntSlice([1, 1]), [CompareLess, CompareEqual], NotLessOrEqual) == Pass
  {
    IntSliceOrdered([1, 1], [CompareLess, CompareEqual], NotLessOrEqual);
  }
}
