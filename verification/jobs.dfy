/**
 A scheduled job and the decision whether it is due at a given instant.

 A job carries its recurrence rule (interval, time unit, optional time of day,
 optional weekday) and its run history (the instant it last fired and, when a
 repeat count was configured, how many firings remain). `RunIfDue` applies the
 gates of the Rust scheduler's `run_if_due` in their fixed order and, when it fires, records the
 firing in the history. The payload closure is not modelled: firing is the
 `fired` flag of the result.
 */
module Jobs {
  import opened Wrappers
  import opened Clock

  /** Granularity of a job's interval. */
  datatype TimeUnit = Seconds | Minutes | Hours | Days | Weeks

  /** Length of one unit in seconds, with no calendar adjustment. */
  function UnitSeconds(unit: TimeUnit): (r: int)
    ensures r >= 1
    ensures r % SecondsPerDay == 0 <==> unit.Days? || unit.Weeks?
    ensures unit.Weeks? ==> r == 7 * SecondsPerDay
    ensures !unit.Seconds? ==> r % SecondsPerMinute == 0
  {
    match unit
    case Seconds => 1
    case Minutes => SecondsPerMinute
    case Hours => SecondsPerHour
    case Days => SecondsPerDay
    case Weeks => SecondsPerWeek
  }

  /** Rust's `u64`, the type of the configured interval. */
  type U64 = x: int | 0 <= x < 0x1_0000_0000_0000_0000

  const I32Min: int := -0x8000_0000
  const I32Max: int := 0x7fff_ffff

  /** Rust's `i32`, the type of the remaining-runs counter. */
  type I32 = x: int | I32Min <= x <= I32Max

  /** The largest duration, in seconds, the time library can represent (`i64::MAX` milliseconds). */
  const MaxDurationSeconds: int := 9_223_372_036_854_775

  /** `count -= 1` on an `i32` as an optimised build performs it: the minimum wraps to the maximum. */
  function WrappingDecrement(c: I32): (r: I32)
    ensures c > I32Min ==> r == c - 1
    ensures c == I32Min ==> r == I32Max
  {
    if c == I32Min then I32Max else c - 1
  }

  datatype Job = Job(
    interval: U64,
    timeUnit: TimeUnit,
    atTime: Option<ClockTime>,
    lastRun: Option<Instant>,
    weekday: Option<Weekday>,
    remainingRuns: Option<I32>)
  {
    /** Minimum number of seconds between two firings. */
    function Threshold(): (t: int)
      ensures t >= 0
      ensures t == 0 <==> interval == 0
    {
      interval * UnitSeconds(timeUnit)
    }

    /** The interval converts to a duration without overflowing the time library. */
    predicate IntervalInRange()
    {
      Threshold() <= MaxDurationSeconds
    }

    /** `other` has the same recurrence rule as this job (its history may differ). */
    predicate SameRule(other: Job)
    {
      && interval == other.interval
      && timeUnit == other.timeUnit
      && atTime == other.atTime
      && weekday == other.weekday
    }
  }

  /** The outcome of evaluating one job at one instant. */
  datatype Evaluation = Evaluation(job: Job, fired: bool)

  // The five gates of `run_if_due`, each stated on its own.

  /** The repeat count has run out. */
  predicate Exhausted(job: Job)
  {
    job.remainingRuns == Some(0)
  }

  /** No weekday restriction, or `now` falls on the wanted weekday. */
  predicate OnWantedWeekday(job: Job, now: Instant)
  {
    match job.weekday
    case None => true
    case Some(d) => WeekdayOf(now) == d
  }

  /** Never fired before, or at least one full interval has passed since the last firing. */
  predicate IntervalElapsed(job: Job, now: Instant)
  {
    match job.lastRun
    case None => true
    case Some(last) => now - last >= job.Threshold()
  }

  /** No time-of-day restriction, or `now` is at or past it on its own date. */
  predicate TimeOfDayReached(job: Job, now: Instant)
  {
    match job.atTime
    case None => true
    case Some(at) => at.Seconds() <= SecondOfDay(now)
  }

  /** A day- or week-granular job with a time of day already fired on the date of `now`. */
  predicate FiredEarlierToday(job: Job, now: Instant)
  {
    && job.atTime.Some?
    && job.lastRun.Some?
    && (job.timeUnit.Days? || job.timeUnit.Weeks?)
    && DateOf(job.lastRun.value) == DateOf(now)
  }

  /** The job is due at `now`: every gate is open. */
  predicate Due(job: Job, now: Instant)
  {
    && !Exhausted(job)
    && OnWantedWeekday(job, now)
    && IntervalElapsed(job, now)
    && TimeOfDayReached(job, now)
    && !FiredEarlierToday(job, now)
  }

  /** `after` is `before` with one firing counted off (an absent count stays absent). */
  predicate CountedDown(before: Option<I32>, after: Option<I32>)
  {
    match before
    case None => after.None?
    case Some(c) => after == Some(WrappingDecrement(c))
  }

  /**
   Evaluate `job` at `now`, applying the gates in the order `run_if_due` applies them:
   exhaustion, weekday, interval, time of day, same-date suppression.
   */
  function RunIfDue(job: Job, now: Instant): (r: Evaluation)
    requires job.IntervalInRange()
    // the decision: fire exactly when every gate is open
    ensures r.fired <==> Due(job, now)
    // a skip changes nothing
    ensures !r.fired ==> r.job == job
    // an exhausted job, or one evaluated on the wrong weekday, is inert whatever the elapsed time
    ensures Exhausted(job) ==> r == Evaluation(job, false)
    ensures !OnWantedWeekday(job, now) ==> r == Evaluation(job, false)
    // the time-of-day gate and the same-date suppression
    ensures !TimeOfDayReached(job, now) ==> !r.fired
    ensures FiredEarlierToday(job, now) ==> !r.fired
    // a first evaluation always passes the interval gate
    ensures job.lastRun.None? && !Exhausted(job) && OnWantedWeekday(job, now) && TimeOfDayReached(job, now) ==> r.fired
    // firing records the instant, counts down once and keeps the rule
    ensures r.fired ==> r.job.lastRun == Some(now)
    ensures r.fired ==> CountedDown(job.remainingRuns, r.job.remainingRuns)
    ensures r.job.SameRule(job)
    // the interval is respected and the last run never moves backwards
    ensures r.fired && job.lastRun.Some? ==> now - job.lastRun.value >= job.Threshold() >= 0
    ensures job.lastRun.Some? ==> r.job.lastRun.Some? && job.lastRun.value <= r.job.lastRun.value
  {
    if job.remainingRuns == Some(0) then Evaluation(job, false)
    else if job.weekday.Some? && WeekdayOf(now) != job.weekday.value then Evaluation(job, false)
    else
      var shouldRun :=
        match job.lastRun
        case None => true
        case Some(last) => now - last >= job.interval * UnitSeconds(job.timeUnit);
      if !shouldRun then Evaluation(job, false)
      else if job.atTime.Some? && SecondOfDay(now) < job.atTime.value.Seconds() then Evaluation(job, false)
      else if job.atTime.Some? && job.lastRun.Some? && (job.timeUnit.Days? || job.timeUnit.Weeks?)
              && DateOf(job.lastRun.value) == DateOf(now) then Evaluation(job, false)
      else
        var remaining :=
          match job.remainingRuns
          case None => None
          case Some(c) => Some(WrappingDecrement(c));
        Evaluation(job.(lastRun := Some(now), remainingRuns := remaining), true)
  }

  /**
   Evaluating again at the instant a job just fired at is a skip, unless its
   interval is zero.
   */
  lemma NoRefireAtSameInstant(job: Job, now: Instant)
    requires job.IntervalInRange()
    requires job.Threshold() > 0
    ensures RunIfDue(job, now).fired ==> !RunIfDue(RunIfDue(job, now).job, now).fired
  {
  }

  /**
   For a day- or week-granular job with a nonzero interval, passing the
   interval gate already puts `now` on a later date than the last run, so the
   same-date suppression can only decide anything when the interval is zero.
   */
  lemma SameDateCheckNeedsZeroInterval(job: Job, now: Instant)
    requires job.timeUnit.Days? || job.timeUnit.Weeks?
    requires job.interval >= 1
    requires job.lastRun.Some?
    requires IntervalElapsed(job, now)
    ensures DateOf(job.lastRun.value) < DateOf(now)
    ensures !FiredEarlierToday(job, now)
  {
    var last := job.lastRun.value;
    assert UnitSeconds(job.timeUnit) >= SecondsPerDay;
    assert job.Threshold() >= UnitSeconds(job.timeUnit);
    NextDay(last);
    DateOfMonotone(last + SecondsPerDay, now);
  }

  /**
   A day- or week-granular job with a time of day never fires twice on one
   date, even with a zero interval.
   */
  lemma NoRefireSameDate(job: Job, now: Instant, later: Instant)
    requires job.IntervalInRange()
    requires job.atTime.Some? && (job.timeUnit.Days? || job.timeUnit.Weeks?)
    requires DateOf(now) == DateOf(later)
    ensures RunIfDue(job, now).fired ==> !RunIfDue(RunIfDue(job, now).job, later).fired
  {
  }
}
