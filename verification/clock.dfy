/** Instants as integer milliseconds since the epoch, and the hour-granular
    "not in the past" rule both meetup writes apply to a proposed date.
    The server clock is taken to run at a whole-hour offset from UTC, so the
    start of the local hour is a floor to a multiple of one hour. */
module Clock {

  const HOUR: int := 3_600_000

  /** `startOfHour`: the latest whole hour at or before `t`. */
  function StartOfHour(t: int): (h: int)
    ensures h <= t < h + HOUR
    ensures h % HOUR == 0
  {
    t - t % HOUR
  }

  /** `isBefore(a, b)`: strictly earlier. */
  predicate IsBefore(a: int, b: int)
  {
    a < b
  }

  /** A proposed meetup date passes the controllers' date check when the start
      of its hour is not before `now`. */
  predicate DateAccepted(date: int, now: int)
  {
    !IsBefore(StartOfHour(date), now)
  }

  /** The earliest whole hour at or after `t`. */
  function NextHourBoundary(t: int): (b: int)
    ensures b % HOUR == 0
    ensures t <= b < t + HOUR
  {
    if t % HOUR == 0 then t else StartOfHour(t) + HOUR
  }

  /** Two distinct whole hours are at least an hour apart. */
  lemma {:induction false} WholeHoursApart(a: int, b: int)
    requires a % HOUR == 0 && b % HOUR == 0
    requires a < b
    ensures a + HOUR <= b
  {
    var qa, qb := a / HOUR, b / HOUR;
    assert a == qa * HOUR;
    assert b == qb * HOUR;
    assert qa < qb;
    assert (qa + 1) * HOUR <= qb * HOUR;
  }

  /** `StartOfHour(t)` is the greatest whole hour not after `t`. */
  lemma StartOfHourIsGreatest(t: int, h: int)
    requires h % HOUR == 0 && h <= t
    ensures h <= StartOfHour(t)
  {
    if StartOfHour(t) < h {
      WholeHoursApart(StartOfHour(t), h);
    }
  }

  /** `NextHourBoundary(t)` is the least whole hour not before `t`. */
  lemma NextHourBoundaryIsLeast(t: int, h: int)
    requires h % HOUR == 0 && t <= h
    ensures NextHourBoundary(t) <= h
  {
    if t % HOUR != 0 && h < NextHourBoundary(t) {
      WholeHoursApart(StartOfHour(t), h);
    }
  }

  /** The date check accepts exactly the dates from the next whole hour on:
      a date later in the current hour is refused unless `now` is itself a
      whole hour. */
  lemma DateAcceptedIff(date: int, now: int)
    ensures DateAccepted(date, now) <==> NextHourBoundary(now) <= date
  {
    if DateAccepted(date, now) {
      NextHourBoundaryIsLeast(now, StartOfHour(date));
    }
    if NextHourBoundary(now) <= date {
      StartOfHourIsGreatest(date, NextHourBoundary(now));
    }
  }

  /** An accepted date is never in the past. */
  lemma AcceptedDateNotPast(date: int, now: int)
    requires DateAccepted(date, now)
    ensures !IsBefore(date, now)
  {
  }

  /** At 00:30 a meetup at 00:45 is still in the future and yet refused. */
  lemma LaterInCurrentHourRefused()
    ensures !IsBefore(HOUR * 3 / 4, HOUR / 2)
    ensures !DateAccepted(HOUR * 3 / 4, HOUR / 2)
  {
  }
}
