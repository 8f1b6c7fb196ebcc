/**
 * Elapsed-time arithmetic on (seconds, nanoseconds) pairs (time_utils.h).
 *
 * A `struct timespec` is normalised, in the POSIX sense of the <time.h>
 * header, when its nanosecond field lies in [0, 10^9). `diff` subtracts two
 * of them and borrows one second when the nanosecond difference is negative.
 */
module TimeUtils {

  /** Nanoseconds in one second. */
  const NSEC_PER_SEC: int := 1_000_000_000

  /** A `struct timespec`: whole seconds and a nanosecond part. */
  datatype Timespec = Timespec(tvSec: int, tvNsec: int)

  /** The POSIX range of the nanosecond field. */
  predicate Normalized(t: Timespec)
  {
    0 <= t.tvNsec < NSEC_PER_SEC
  }

  /** The instant a timespec denotes, counted in nanoseconds. */
  function TotalNanos(t: Timespec): int
  {
    t.tvSec * NSEC_PER_SEC + t.tvNsec
  }

  /** The normalised timespec of a nanosecond count. */
  function FromNanos(n: int): (t: Timespec)
    ensures Normalized(t)
    ensures TotalNanos(t) == n
  {
    Timespec(n / NSEC_PER_SEC, n % NSEC_PER_SEC)
  }

  /**
   * `diff(start, end)`: the time from `start` to `end`. The total is exact for
   * all inputs; a second is borrowed exactly when the nanosecond field of
   * `end` is the smaller; normalised inputs give a normalised result that is
   * non-negative exactly when `end` is not earlier than `start`.
   */
  function Diff(start: Timespec, end: Timespec): (r: Timespec)
    ensures TotalNanos(r) == TotalNanos(end) - TotalNanos(start)
    ensures end.tvNsec < start.tvNsec <==> r.tvSec == end.tvSec - start.tvSec - 1
    ensures end.tvNsec >= start.tvNsec ==> r.tvSec == end.tvSec - start.tvSec
    ensures Normalized(start) && Normalized(end) ==> Normalized(r)
    ensures Normalized(start) && Normalized(end) ==>
              (r.tvSec >= 0 <==> TotalNanos(start) <= TotalNanos(end))
    ensures start == end ==> r == Timespec(0, 0)
  {
    if end.tvNsec - start.tvNsec < 0 then
      Timespec(end.tvSec - start.tvSec - 1, NSEC_PER_SEC + end.tvNsec - start.tvNsec)
    else
      Timespec(end.tvSec - start.tvSec, end.tvNsec - start.tvNsec)
  }

  /** Two normalised timespecs that denote the same instant are equal. */
  lemma NormalizedUnique(a: Timespec, b: Timespec)
    requires Normalized(a) && Normalized(b)
    requires TotalNanos(a) == TotalNanos(b)
    ensures a == b
  {
  }

  /** A normalised timespec survives the round trip through its nanosecond count. */
  lemma NanosRoundTrip(t: Timespec)
    requires Normalized(t)
    ensures FromNanos(TotalNanos(t)) == t
  {
    NormalizedUnique(FromNanos(TotalNanos(t)), t);
  }

  /**
   * On normalised inputs `diff` is the normalised form of the difference of the
   * two instants, whichever of them is earlier.
   */
  lemma DiffIsNormalizedDifference(start: Timespec, end: Timespec)
    requires Normalized(start) && Normalized(end)
    ensures Diff(start, end) == FromNanos(TotalNanos(end) - TotalNanos(start))
  {
    NormalizedUnique(Diff(start, end), FromNanos(TotalNanos(end) - TotalNanos(start)));
  }
}
