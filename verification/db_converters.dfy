/**
 * Room's type converters for `Timestamp` columns (data/database/Converters.kt): a timestamp is
 * stored as epoch milliseconds computed from whole seconds, and read back through
 * `Timestamp(Date(millis))`.
 */
module DbConverters {
  import opened Common
  import opened Time

  /** `value?.seconds?.times(1000)`: the sub-second part is discarded. */
  function FromTimestamp(value: Option<Timestamp>): (r: Option<int>)
    ensures r.None? <==> value.None?
    ensures r.Some? ==> r.value % MillisPerSecond == 0
  {
    match value
    case None => None
    case Some(t) => Some(t.seconds * MillisPerSecond)
  }

  /**
   * Firebase's `Timestamp(Date)` constructor: Java division of the milliseconds, then one
   * second is borrowed when the remainder is negative so that the nanoseconds stay in range.
   * The result is floor division, whatever the sign.
   */
  function FromDate(millis: int): (t: Timestamp)
    ensures t.seconds == millis / MillisPerSecond
    ensures t.nanos == (millis % MillisPerSecond) * NanosPerMilli
  {
    JavaRemRange(millis, MillisPerSecond);
    var seconds := JavaDiv(millis, MillisPerSecond);
    var nanos := JavaRem(millis, MillisPerSecond) * NanosPerMilli;
    if nanos < 0 then Timestamp(seconds - 1, nanos + NanosPerSecond)
    else Timestamp(seconds, nanos)
  }

  /** `value?.let { Timestamp(Date(it)) }`. */
  function ToTimestamp(value: Option<int>): (r: Option<Timestamp>)
    ensures r.None? <==> value.None?
    ensures r.Some? ==> r.value.seconds == value.value / MillisPerSecond
    ensures r.Some? ==> r.value.nanos == (value.value % MillisPerSecond) * NanosPerMilli
  {
    match value
    case None => None
    case Some(m) => Some(FromDate(m))
  }

  /** The value SQLite sees in a timestamp column: the column's stored milliseconds. */
  function Millis(t: Timestamp): (m: int)
    ensures m % MillisPerSecond == 0 && m / MillisPerSecond == t.seconds
  {
    FromTimestamp(Some(t)).value
  }

  /** A timestamp after a round trip through the database: the whole second it falls in. */
  function Stored(t: Timestamp): (r: Timestamp)
    ensures r == Timestamp(t.seconds, 0)
    ensures Le(r, t)
  {
    ToTimestamp(FromTimestamp(Some(t))).value
  }

  /** Millis -> Timestamp -> millis keeps the whole seconds and drops the rest. */
  lemma {:induction false} MillisRoundTrip(m: int)
    ensures FromTimestamp(ToTimestamp(Some(m))) == Some(m - m % MillisPerSecond)
    ensures m % MillisPerSecond == 0 ==> FromTimestamp(ToTimestamp(Some(m))) == Some(m)
  {
    var t := ToTimestamp(Some(m)).value;
    assert t.seconds == m / MillisPerSecond;
    assert m == (m / MillisPerSecond) * MillisPerSecond + m % MillisPerSecond;
  }

  /** Stored millis are monotone in the timestamp order. */
  lemma MillisMonotone(a: Timestamp, b: Timestamp)
    requires Le(a, b)
    ensures Millis(a) <= Millis(b)
  {
  }

  /** A strict difference in stored millis means a strict difference in time. */
  lemma MillisReflectsOrder(a: Timestamp, b: Timestamp)
    requires Millis(a) < Millis(b)
    ensures Lt(a, b)
  {
  }

  /** Monotone but not strictly: two instants within one second are stored alike. */
  lemma MillisNotInjective()
    ensures Lt(Timestamp(0, 0), Timestamp(0, 1))
    ensures Millis(Timestamp(0, 0)) == Millis(Timestamp(0, 1))
    ensures Stored(Timestamp(0, 1)) == Stored(Timestamp(0, 0))
  {
  }
}
