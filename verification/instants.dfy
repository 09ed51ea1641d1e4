/** Instants and elapsed time. A `datetime` is modelled as an integer count of
    microseconds since an arbitrary epoch, so the difference of two instants is
    the integer number of microseconds between them (a `timedelta`). */
module Instants {

  /** Microseconds in one day: `timedelta(days=1)`. */
  const DAY: int := 86_400_000_000

  /** Microseconds in one week: `timedelta(weeks=1)`. */
  const WEEK: int := 7 * DAY

  /** `timedelta.days`: the whole number of days in a gap, rounded toward minus
      infinity. Dafny's division by a positive divisor already floors, so this
      is exact for negative gaps too. */
  function WholeDays(gap: int): (d: int)
    ensures d * DAY <= gap < (d + 1) * DAY
  {
    gap / DAY
  }

  /** The whole-day count is `n` exactly when the gap lies in `[n days, n+1 days)`. */
  lemma WholeDaysIs(gap: int, n: int)
    ensures WholeDays(gap) == n <==> n * DAY <= gap < (n + 1) * DAY
  {
    var d := WholeDays(gap);
    if d < n {
      assert (d + 1) * DAY <= n * DAY;
    } else if d > n {
      assert (n + 1) * DAY <= d * DAY;
    }
  }

  /** `0 < days <= 7` holds exactly when the gap lies in `[1 day, 8 days)`. */
  lemma WholeDaysBetween(gap: int)
    ensures 0 < WholeDays(gap) <= 7 <==> DAY <= gap < 8 * DAY
  {
    var d := WholeDays(gap);
    if d <= 0 {
      assert (d + 1) * DAY <= DAY;
    } else if d > 7 {
      assert 8 * DAY <= d * DAY;
    } else {
      assert DAY <= d * DAY;
      assert (d + 1) * DAY <= 8 * DAY;
    }
  }
}
