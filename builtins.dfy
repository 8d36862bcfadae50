/** The Go orderings the engine relies on: the built-in `<` on floats and
    on strings, and the standard library's `bytes.Compare`. */
module Builtins {
  import opened Values

  /** Go's `<` on floats: NaN is unordered with everything, infinities
      bound the finite values. */
  predicate FloatLess(a: Float, b: Float)
  {
    match (a, b)
    case (Finite(x), Finite(y)) => x < y
    case (NegInf, Finite(_)) => true
    case (NegInf, PosInf) => true
    case (Finite(_), PosInf) => true
    case _ => false
  }

  /** Go's `==` on floats: NaN equals nothing, not even itself. */
  predicate FloatEqual(a: Float, b: Float)
  {
    !a.NaN? && a == b
  }

  /** Exactly one of <, ==, > holds between two floats unless one is NaN,
      in which case none does. */
  lemma FloatTrichotomy(a: Float, b: Float)
    ensures !a.NaN? && !b.NaN? ==>
      (FloatLess(a, b) || FloatEqual(a, b) || FloatLess(b, a)) &&
      !(FloatLess(a, b) && FloatLess(b, a)) &&
      !(FloatEqual(a, b) && (FloatLess(a, b) || FloatLess(b, a)))
    ensures a.NaN? || b.NaN? ==> !FloatLess(a, b) && !FloatEqual(a, b) && !FloatLess(b, a)
  {
  }

  lemma FloatLessTransitive(a: Float, b: Float, c: Float)
    requires FloatLess(a, b) && FloatLess(b, c)
    ensures FloatLess(a, c)
  {
  }

  /** Go's `<` on strings: byte-wise lexicographic order, in which a proper
      prefix comes first. */
  predicate StringLess(a: seq<byte>, b: seq<byte>)
    decreases |a|
  {
    |b| > 0 && (|a| == 0 || a[0] < b[0] || (a[0] == b[0] && StringLess(a[1..], b[1..])))
  }

  lemma {:induction false} StringLessIrreflexive(a: seq<byte>)
    ensures !StringLess(a, a)
    decreases |a|
  {
    if |a| > 0 {
      StringLessIrreflexive(a[1..]);
    }
  }

  lemma SplitHead(a: seq<byte>, b: seq<byte>)
    requires |a| > 0 && |b| > 0
    ensures a == b <==> a[0] == b[0] && a[1..] == b[1..]
  {
    if a[0] == b[0] && a[1..] == b[1..] {
      assert a == [a[0]] + a[1..];
      assert b == [b[0]] + b[1..];
    }
  }

  /** Exactly one of a < b, a == b, b < a. */
  lemma {:induction false} StringTrichotomy(a: seq<byte>, b: seq<byte>)
    ensures StringLess(a, b) || a == b || StringLess(b, a)
    ensures !(StringLess(a, b) && StringLess(b, a))
    ensures a == b ==> !StringLess(a, b)
    decreases |a|
  {
    if a == b {
      StringLessIrreflexive(a);
    } else if |a| > 0 && |b| > 0 {
      SplitHead(a, b);
      StringTrichotomy(a[1..], b[1..]);
    }
  }

  lemma {:induction false} StringLessTransitive(a: seq<byte>, b: seq<byte>, c: seq<byte>)
    requires StringLess(a, b) && StringLess(b, c)
    ensures StringLess(a, c)
    decreases |a|
  {
    if |a| > 0 && a[0] == b[0] && b[0] == c[0] {
      StringLessTransitive(a[1..], b[1..], c[1..]);
    }
  }

  /** A proper prefix is smaller. */
  lemma {:induction false} ProperPrefixIsLess(a: seq<byte>, b: seq<byte>)
    requires |a| < |b| && a == b[..|a|]
    ensures StringLess(a, b)
    decreases |a|
  {
    if |a| > 0 {
      assert a[0] == b[0];
      assert a[1..] == b[1..][..|a| - 1];
      ProperPrefixIsLess(a[1..], b[1..]);
    }
  }

  /** After a common prefix, the first differing byte decides. */
  lemma {:induction false} FirstDifferenceDecides(a: seq<byte>, b: seq<byte>, k: nat)
    requires k < |a| && k < |b| && a[..k] == b[..k] && a[k] < b[k]
    ensures StringLess(a, b)
    decreases k
  {
    if k > 0 {
      assert a[0] == a[..k][0] == b[..k][0] == b[0];
      assert a[1..][..k - 1] == a[..k][1..] == b[..k][1..] == b[1..][..k - 1];
      FirstDifferenceDecides(a[1..], b[1..], k - 1);
    }
  }

  /** `bytes.Compare(a, b)`: 0 if a == b, -1 if a < b, +1 if a > b, comparing
      the bytes from the front and treating a missing byte as smaller. */
  function BytesCompare(a: seq<byte>, b: seq<byte>): (r: int)
    ensures r == -1 || r == 0 || r == 1
    ensures r == 0 <==> a == b
    decreases |a|
  {
    if |a| == 0 then (if |b| == 0 then 0 else -1)
    else if |b| == 0 then 1
    else if a[0] < b[0] then -1
    else if a[0] > b[0] then 1
    else (SplitHead(a, b); BytesCompare(a[1..], b[1..]))
  }

  /** `bytes.Compare` orders exactly as the string `<` does. */
  lemma {:induction false} BytesCompareIsStringOrder(a: seq<byte>, b: seq<byte>)
    ensures BytesCompare(a, b) == -1 <==> StringLess(a, b)
    ensures BytesCompare(a, b) == 1 <==> StringLess(b, a)
    decreases |a|
  {
    if |a| > 0 && |b| > 0 && a[0] == b[0] {
      BytesCompareIsStringOrder(a[1..], b[1..]);
    }
  }

  /** Swapping the operands of `bytes.Compare` negates the result. */
  lemma BytesCompareSwap(a: seq<byte>, b: seq<byte>)
    ensures BytesCompare(b, a) == -BytesCompare(a, b)
  {
    BytesCompareIsStringOrder(a, b);
    BytesCompareIsStringOrder(b, a);
    StringTrichotomy(a, b);
  }
}
