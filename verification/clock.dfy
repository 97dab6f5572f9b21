/** Local calendar time of an instant, reduced to what the focus engine needs:
    the local day an instant falls on and its local hour.

    Instants are milliseconds since the Unix epoch. The local zone is a fixed
    offset `tz` in milliseconds ahead of UTC; daylight-saving changes are not
    modelled. Dafny's `/` and `%` with a positive divisor round toward minus
    infinity, so days and hours are well defined for instants before the epoch
    too. */
module Clock {

  const MsPerHour: int := 3_600_000
  const MsPerDay: int := 86_400_000
  const HoursPerDay: nat := 24

  /** Local day number of `ts`: day 0 is the local date of the epoch. Two
      instants have the same local date exactly when their DayOf agree. */
  function DayOf(ts: int, tz: int): int
  {
    (ts + tz) / MsPerDay
  }

  /** Local hour of `ts`, always one of the 24 hours of a day. */
  function HourOf(ts: int, tz: int): (h: int)
    ensures 0 <= h < HoursPerDay
  {
    ((ts + tz) % MsPerDay) / MsPerHour
  }

  /** An instant at local midnight belongs to the new day, at hour 0; the
      millisecond before it is in hour 23 of the previous day. */
  lemma MidnightOpensNewDay(ts: int, tz: int)
    requires (ts + tz) % MsPerDay == 0
    ensures DayOf(ts, tz) == DayOf(ts - 1, tz) + 1
    ensures HourOf(ts, tz) == 0 && HourOf(ts - 1, tz) == HoursPerDay - 1
  {
  }
}
