/**
 Instants and the calendar facts the scheduler reads from them.

 An instant is a whole number of UTC seconds since 1970-01-01T00:00:00Z.
 The calendar date of an instant is the number of whole days since the epoch
 (rounded down, so instants before 1970 fall on negative dates), its time of
 day is the number of seconds since the preceding midnight, and its weekday is
 counted from the epoch, which was a Thursday.
 */
module Clock {

  type Instant = int

  const SecondsPerMinute: int := 60
  const SecondsPerHour: int := 3600
  const SecondsPerDay: int := 86400
  const SecondsPerWeek: int := 604800

  /** The seven weekdays in the order Monday first. */
  datatype Weekday = Mon | Tue | Wed | Thu | Fri | Sat | Sun

  /** Position of a weekday counted from Monday. */
  function DayIndex(d: Weekday): (r: nat)
    ensures r < 7
  {
    match d
    case Mon => 0
    case Tue => 1
    case Wed => 2
    case Thu => 3
    case Fri => 4
    case Sat => 5
    case Sun => 6
  }

  /** The weekday at a given position counted from Monday. */
  function WeekdayAt(k: nat): (d: Weekday)
    requires k < 7
    ensures DayIndex(d) == k
  {
    if k == 0 then Mon
    else if k == 1 then Tue
    else if k == 2 then Wed
    else if k == 3 then Thu
    else if k == 4 then Fri
    else if k == 5 then Sat
    else Sun
  }

  /** The weekday after `d`, wrapping from Sunday to Monday. */
  function Succ(d: Weekday): Weekday
  {
    WeekdayAt((DayIndex(d) + 1) % 7)
  }

  /** Calendar date of `t`: whole days since the epoch, rounded down. */
  function DateOf(t: Instant): int
  {
    t / SecondsPerDay
  }

  /** Seconds elapsed since midnight on the date of `t`. */
  function SecondOfDay(t: Instant): (s: int)
    ensures 0 <= s < SecondsPerDay
    ensures t == DateOf(t) * SecondsPerDay + s
  {
    t % SecondsPerDay
  }

  /** Weekday of `t`; date 0 (1970-01-01) was a Thursday. */
  function WeekdayOf(t: Instant): Weekday
  {
    WeekdayAt((DateOf(t) + DayIndex(Thu)) % 7)
  }

  /** A time of day with minute resolution, as produced by an "HH:MM" literal. */
  datatype TimeOfDay = TimeOfDay(hour: int, minute: int)
  {
    predicate Valid()
    {
      0 <= hour < 24 && 0 <= minute < 60
    }

    /** Seconds from midnight to this time of day. */
    function Seconds(): (s: int)
      requires Valid()
      ensures 0 <= s < SecondsPerDay
      ensures s % SecondsPerMinute == 0
    {
      hour * SecondsPerHour + minute * SecondsPerMinute
    }
  }

  type ClockTime = t: TimeOfDay | t.Valid() witness TimeOfDay(0, 0)

  /** Dates never run backwards: a later instant falls on the same or a later date. */
  lemma DateOfMonotone(a: Instant, b: Instant)
    requires a <= b
    ensures DateOf(a) <= DateOf(b)
  {
  }

  /** The instant one day later falls on the next date at the same time of day. */
  lemma NextDay(t: Instant)
    ensures DateOf(t + SecondsPerDay) == DateOf(t) + 1
    ensures SecondOfDay(t + SecondsPerDay) == SecondOfDay(t)
  {
  }

  /** Quotient and remainder by a day are determined by any exact decomposition. */
  lemma DivUnique(t: Instant, q: int, s: int)
    requires 0 <= s < SecondsPerDay
    requires t == q * SecondsPerDay + s
    ensures DateOf(t) == q && SecondOfDay(t) == s
  {
  }

  /** One day later is the next weekday; the epoch date is a Thursday. */
  lemma WeekdayAdvancesDaily(t: Instant)
    ensures WeekdayOf(t + SecondsPerDay) == Succ(WeekdayOf(t))
  {
    NextDay(t);
    var k := (DateOf(t) + DayIndex(Thu)) % 7;
    assert DayIndex(WeekdayOf(t)) == k;
    assert (DateOf(t) + 1 + DayIndex(Thu)) % 7 == (k + 1) % 7;
  }

  /** One week later is the same weekday at the same time of day. */
  lemma WeekdayRepeatsWeekly(t: Instant)
    ensures WeekdayOf(t + SecondsPerWeek) == WeekdayOf(t)
    ensures SecondOfDay(t + SecondsPerWeek) == SecondOfDay(t)
  {
    DivUnique(t + SecondsPerWeek, DateOf(t) + 7, SecondOfDay(t));
  }
}
