/**
 * Firebase's `Timestamp`: whole seconds since the Unix epoch plus a nanosecond part,
 * compared lexicographically (`Timestamp.compareTo`), and Java's truncating integer division.
 */
module Time {

  const MillisPerSecond: int := 1000
  const NanosPerMilli: int := 1_000_000
  const NanosPerSecond: int := 1_000_000_000

  /** The constructor rejects a nanosecond part outside [0, 10^9). */
  type Nanos = n: int | 0 <= n < 1_000_000_000

  datatype Timestamp = Timestamp(seconds: int, nanos: Nanos)

  const Epoch: Timestamp := Timestamp(0, 0)

  /** `a <= b` through `compareTo`: seconds first, then nanoseconds. */
  predicate Le(a: Timestamp, b: Timestamp)
  {
    a.seconds < b.seconds || (a.seconds == b.seconds && a.nanos <= b.nanos)
  }

  /** `a < b` through `compareTo`. */
  predicate Lt(a: Timestamp, b: Timestamp)
  {
    a.seconds < b.seconds || (a.seconds == b.seconds && a.nanos < b.nanos)
  }

  /** `Le` is a total order whose strict part is `Lt`. */
  lemma LeTotalOrder(a: Timestamp, b: Timestamp, c: Timestamp)
    ensures Le(a, a)
    ensures Le(a, b) && Le(b, a) ==> a == b
    ensures Le(a, b) && Le(b, c) ==> Le(a, c)
    ensures Le(a, b) || Le(b, a)
    ensures Lt(a, b) <==> Le(a, b) && a != b
  {
  }

  /** Java's `a / b` on `long`: rounds toward zero. */
  function JavaDiv(a: int, b: int): int
    requires b > 0
  {
    if a >= 0 then a / b else -((-a) / b)
  }

  /** Java's `a % b` on `long`: takes the sign of `a`. */
  function JavaRem(a: int, b: int): int
    requires b > 0
  {
    a - b * JavaDiv(a, b)
  }

  /** On non-negative operands Java's division agrees with Dafny's. */
  lemma JavaDivNonNegative(a: int, b: int)
    requires a >= 0 && b > 0
    ensures JavaDiv(a, b) == a / b && JavaRem(a, b) == a % b
  {
  }

  /** Java's remainder is zero or has the sign of the dividend, and is smaller than the divisor. */
  lemma JavaRemRange(a: int, b: int)
    requires b > 0
    ensures a >= 0 ==> 0 <= JavaRem(a, b) < b
    ensures a < 0 ==> -b < JavaRem(a, b) <= 0
  {
    if a < 0 {
      var q := (-a) / b;
      assert -a == b * q + (-a) % b;
    }
  }
}
