/** Dates and the current time without `datetime` text: a calendar date is its
    proleptic ordinal (`date.toordinal()`, 1 for 0001-01-01) and "now" is an
    ordinal plus the microseconds elapsed since that day's midnight. A stored
    `YYYY-MM-DD` column read back with `strptime` is the midnight of its day. */
module Calendar {
  import opened Outcomes

  /** `date(9999, 12, 31).toordinal()`, the last day `datetime` can hold. */
  const MaxOrdinal := 3_652_059
  const MicrosPerDay := 86_400_000_000

  type Ordinal = d: int | 1 <= d <= MaxOrdinal witness 1
  type TimeOfDay = t: int | 0 <= t < MicrosPerDay

  /** A `datetime` value: its date and its time of day. */
  datatype Instant = Instant(day: Ordinal, time: TimeOfDay)

  /** Microseconds from the start of day 0 to `t`. */
  function Stamp(t: Instant): int {
    t.day * MicrosPerDay + t.time
  }

  /** `a <= b` on datetimes. */
  predicate NotLater(a: Instant, b: Instant) {
    Stamp(a) <= Stamp(b)
  }

  /** `now > datetime.strptime(day, ...)`: strictly past midnight starting `day`. */
  predicate PastMidnight(now: Instant, day: Ordinal) {
    Stamp(now) > day * MicrosPerDay
  }

  lemma PastMidnightByDate(now: Instant, day: Ordinal)
    ensures PastMidnight(now, day) <==> now.day > day || (now.day == day && now.time > 0)
  {
  }

  lemma NotLaterByDate(a: Instant, b: Instant)
    ensures NotLater(a, b) <==> a.day < b.day || (a.day == b.day && a.time <= b.time)
  {
  }

  /** `(now - datetime(day)).days`: `timedelta` normalises to a floor division
      by one day, so a part day does not count. */
  function DaysSince(now: Instant, day: Ordinal): (r: int)
    ensures r == now.day - day
  {
    (Stamp(now) - day * MicrosPerDay) / MicrosPerDay
  }

  /** The date of `now + timedelta(days=days)`. Python raises `OverflowError`
      (here `None`) when the sum leaves the years 1..9999; the magnitude limit
      of `timedelta` itself is implied by that range. */
  function ShiftDays(now: Instant, days: int): (r: Option<Ordinal>)
    ensures r.Some? <==> 1 <= now.day + days <= MaxOrdinal
    ensures r.Some? ==> r.value - now.day == days
  {
    var d := now.day + days;
    if 1 <= d <= MaxOrdinal then Some(d) else None
  }
}
