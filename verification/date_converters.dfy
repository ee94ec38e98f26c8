/**
 * The older Room converters between epoch milliseconds and `LocalDateTime`
 * (data/Converters.kt). Both directions read the date-time as UTC, so a `LocalDateTime` is
 * represented here by the UTC instant it names: whole epoch seconds and a nanosecond part.
 */
module DateConverters {
  import opened Common
  import opened Time

  datatype DateTime = DateTime(epochSecond: int, nano: Nanos)

  /** `LocalDateTime.ofEpochSecond(it / 1000, 0, UTC)`: Java division, rounding toward zero. */
  function FromTimestamp(value: Option<int>): (r: Option<DateTime>)
    ensures r.None? <==> value.None?
    ensures r.Some? ==> r.value.nano == 0
    ensures r.Some? && value.value >= 0 ==> r.value.epochSecond == value.value / MillisPerSecond
  {
    match value
    case None => None
    case Some(m) => Some(DateTime(JavaDiv(m, MillisPerSecond), 0))
  }

  /** `date?.toInstant(UTC)?.toEpochMilli()`: whole seconds plus whole milliseconds of the nanos. */
  function DateToTimestamp(date: Option<DateTime>): (r: Option<int>)
    ensures r.None? <==> date.None?
    ensures r.Some? ==> r.value / MillisPerSecond == date.value.epochSecond
    ensures r.Some? ==> r.value % MillisPerSecond == date.value.nano / NanosPerMilli
  {
    match date
    case None => None
    case Some(d) => Some(d.epochSecond * MillisPerSecond + d.nano / NanosPerMilli)
  }

  /** Millis -> date-time -> millis drops the sub-second part (Java remainder, any sign). */
  lemma {:induction false} MillisRoundTrip(m: int)
    ensures DateToTimestamp(FromTimestamp(Some(m))) == Some(m - JavaRem(m, MillisPerSecond))
    ensures m >= 0 ==> DateToTimestamp(FromTimestamp(Some(m))) == Some(m - m % MillisPerSecond)
  {
    if m >= 0 {
      JavaDivNonNegative(m, MillisPerSecond);
    }
  }

  /** Date-time -> millis -> date-time zeroes the sub-second part, for instants at or after the epoch. */
  lemma {:induction false} DateRoundTrip(d: DateTime)
    requires d.epochSecond >= 0
    ensures FromTimestamp(DateToTimestamp(Some(d))) == Some(DateTime(d.epochSecond, 0))
  {
    var m := d.epochSecond * MillisPerSecond + d.nano / NanosPerMilli;
    assert 0 <= d.nano / NanosPerMilli < MillisPerSecond;
    JavaDivNonNegative(m, MillisPerSecond);
    assert m / MillisPerSecond == d.epochSecond;
  }

  /**
   * Before the epoch the rounding toward zero moves a date-time with a sub-second part
   * to the following second.
   */
  lemma PreEpochRoundsUp()
    ensures DateToTimestamp(Some(DateTime(-1, 500_000_000))) == Some(-500)
    ensures FromTimestamp(DateToTimestamp(Some(DateTime(-1, 500_000_000)))) == Some(DateTime(0, 0))
  {
  }
}
