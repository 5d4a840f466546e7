/** The comparison mix-ins: each derived operator is a single negated or
    flipped call of the type's own `<` or `==`. */
module Comparable {

  function NotEqual<T>(eq: (T, T) -> bool, lhs: T, rhs: T): bool
  {
    !eq(lhs, rhs)
  }

  function Greater<T>(less: (T, T) -> bool, lhs: T, rhs: T): bool
  {
    less(rhs, lhs)
  }

  function LessEq<T>(less: (T, T) -> bool, lhs: T, rhs: T): bool
  {
    !less(rhs, lhs)
  }

  function GreaterEq<T>(less: (T, T) -> bool, lhs: T, rhs: T): bool
  {
    !less(lhs, rhs)
  }

  /** `<` orders keys strictly and totally, with `==` as its equality. */
  ghost predicate StrictTotalOrder<T(!new)>(less: (T, T) -> bool, eq: (T, T) -> bool)
  {
    (forall a, b :: eq(a, b) == eq(b, a))
    && (forall a, b :: !(less(a, b) && less(b, a)))
    && (forall a, b :: less(a, b) || eq(a, b) || less(b, a))
    && (forall a, b :: eq(a, b) ==> !less(a, b))
  }

  /** For such an order the derived operators mean what their names say. */
  lemma DerivedOperators<T(!new)>(less: (T, T) -> bool, eq: (T, T) -> bool, a: T, b: T)
    requires StrictTotalOrder(less, eq)
    ensures LessEq(less, a, b) <==> (less(a, b) || eq(a, b))
    ensures GreaterEq(less, a, b) <==> (less(b, a) || eq(a, b))
    ensures Greater(less, a, b) <==> (!less(a, b) && !eq(a, b))
    ensures NotEqual(eq, a, b) <==> (less(a, b) || less(b, a))
  {
  }
}

/** Time points in microseconds since the Unix epoch. */
module Timestamps {
  import opened CInt
  import Comparable

  const MicroSecondsPerSecond: int := 1000 * 1000

  datatype Timestamp = Timestamp(microSecondsSinceEpoch: Int64)
  {
    /** A timestamp is valid iff it lies after the epoch. */
    predicate Valid()
    {
      microSecondsSinceEpoch > 0
    }

    /** Whole seconds, truncated toward zero as C++ division does. */
    function SecondsSinceEpoch(): (s: int)
      ensures microSecondsSinceEpoch >= 0 ==> s * MicroSecondsPerSecond <= microSecondsSinceEpoch < (s + 1) * MicroSecondsPerSecond
      ensures microSecondsSinceEpoch < 0 ==> (s - 1) * MicroSecondsPerSecond < microSecondsSinceEpoch <= s * MicroSecondsPerSecond
    {
      CModRange(microSecondsSinceEpoch, MicroSecondsPerSecond);
      CDiv(microSecondsSinceEpoch, MicroSecondsPerSecond)
    }
  }

  /** The default-constructed timestamp: 0 us, which is not valid. */
  const Invalid: Timestamp := Timestamp(0)

  /** `addTime` with a whole number of microseconds; the sum must stay in
      int64 range, since signed overflow is undefined. */
  function AddMicroseconds(t: Timestamp, delta: int): (r: Timestamp)
    requires Int64Min <= t.microSecondsSinceEpoch + delta <= Int64Max
    ensures r.microSecondsSinceEpoch - t.microSecondsSinceEpoch == delta
  {
    Timestamp(t.microSecondsSinceEpoch + delta)
  }

  function Less(lhs: Timestamp, rhs: Timestamp): bool
  {
    lhs.microSecondsSinceEpoch < rhs.microSecondsSinceEpoch
  }

  function Equal(lhs: Timestamp, rhs: Timestamp): bool
  {
    lhs.microSecondsSinceEpoch == rhs.microSecondsSinceEpoch
  }

  /** `<` and `==` form a strict total order, and `==` is identity. */
  lemma TimestampOrder()
    ensures Comparable.StrictTotalOrder(Less, Equal)
    ensures forall a, b :: Equal(a, b) <==> a == b
  {
  }

  /** The derived operators on timestamps compare the microsecond counts. */
  lemma TimestampDerivedOperators(a: Timestamp, b: Timestamp)
    ensures Comparable.LessEq(Less, a, b) <==> a.microSecondsSinceEpoch <= b.microSecondsSinceEpoch
    ensures Comparable.GreaterEq(Less, a, b) <==> a.microSecondsSinceEpoch >= b.microSecondsSinceEpoch
    ensures Comparable.Greater(Less, a, b) <==> a.microSecondsSinceEpoch > b.microSecondsSinceEpoch
    ensures Comparable.NotEqual(Equal, a, b) <==> a.microSecondsSinceEpoch != b.microSecondsSinceEpoch
  {
    TimestampOrder();
    Comparable.DerivedOperators(Less, Equal, a, b);
  }

  /** Adding a positive delta moves a timestamp strictly later. */
  lemma AddMicrosecondsOrders(t: Timestamp, delta: int)
    requires delta > 0 && t.microSecondsSinceEpoch + delta <= Int64Max
    ensures Less(t, AddMicroseconds(t, delta))
    ensures Comparable.NotEqual(Equal, t, AddMicroseconds(t, delta))
  {
  }
}
