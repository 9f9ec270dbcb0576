/**
 The job registry: building and registering jobs, and the tick that
 evaluates every registered job against one shared instant.

 The builder accumulates a job's configuration; finalising it (`Do`) appends
 one job with an empty history to the registry. The tick visits the jobs in
 registration order; the order in which it reports firings is the order in
 which the Rust scheduler's `run_pending` invokes the payloads.
 */
module Registry {
  import opened Wrappers
  import opened Clock
  import opened Jobs
  import opened Trace

  /** Why configuring a job can be rejected. */
  datatype ConfigError =
    | MissingTimeUnit   // finalised without choosing a time unit
    | BadTimeOfDay      // an hour or minute outside the clock

  /** A job's configuration before it is registered. */
  datatype Builder = Builder(
    interval: U64,
    timeUnit: Option<TimeUnit>,
    atTime: Option<ClockTime>,
    weekday: Option<Weekday>,
    repeat: Option<I32>)
  {
    /**
     Select the time unit (`seconds()` … `week()`): only the unit changes, and
     a later choice replaces an earlier one.
     */
    function WithUnit(unit: TimeUnit): (r: Builder)
      ensures r.timeUnit == Some(unit)
      ensures r.interval == interval && r.atTime == atTime && r.weekday == weekday && r.repeat == repeat
    {
      this.(timeUnit := Some(unit))
    }

    /** Restrict the job to one weekday (`monday()` … `sunday()`); only the weekday changes. */
    function OnWeekday(day: Weekday): (r: Builder)
      ensures r.weekday == Some(day)
      ensures r.interval == interval && r.timeUnit == timeUnit && r.atTime == atTime && r.repeat == repeat
    {
      this.(weekday := Some(day))
    }

    /** Limit the number of firings (`repeat(count)`); only the repeat count changes. */
    function Repeat(count: I32): (r: Builder)
      ensures r.repeat == Some(count)
      ensures r.interval == interval && r.timeUnit == timeUnit && r.atTime == atTime && r.weekday == weekday
    {
      this.(repeat := Some(count))
    }

    /**
     Restrict firing to at or after a time of day, given as hour and minute; an
     hour or minute outside the clock is rejected and leaves nothing configured.
     */
    function At(hour: int, minute: int): (r: Result<Builder, ConfigError>)
      ensures r.Success? <==> 0 <= hour < 24 && 0 <= minute < 60
      ensures r.Failure? ==> r.error == BadTimeOfDay
      ensures r.Success? ==>
        && r.value.atTime == Some(TimeOfDay(hour, minute))
        && r.value.atTime.value.Seconds() == hour * SecondsPerHour + minute * SecondsPerMinute
        && r.value.interval == interval && r.value.timeUnit == timeUnit
        && r.value.weekday == weekday && r.value.repeat == repeat
    {
      var t := TimeOfDay(hour, minute);
      if t.Valid() then Success(this.(atTime := Some(t))) else Failure(BadTimeOfDay)
    }
  }

  /**
   The optional settings are independent: setters of two different settings
   commute, so a chain that sets each setting at most once gives the same
   builder in any order; whether a time of day is accepted does not depend on
   the other settings. For one setting the later call wins.
   */
  lemma SettersIndependent(b: Builder, u: TimeUnit, u': TimeUnit, d: Weekday, d': Weekday, c: I32, c': I32, hour: int, minute: int, hour': int, minute': int)
    ensures b.WithUnit(u).WithUnit(u') == b.WithUnit(u')
    ensures b.OnWeekday(d).OnWeekday(d') == b.OnWeekday(d')
    ensures b.Repeat(c).Repeat(c') == b.Repeat(c')
    ensures b.WithUnit(u).OnWeekday(d) == b.OnWeekday(d).WithUnit(u)
    ensures b.WithUnit(u).Repeat(c) == b.Repeat(c).WithUnit(u)
    ensures b.OnWeekday(d).Repeat(c) == b.Repeat(c).OnWeekday(d)
    ensures b.WithUnit(u).OnWeekday(d).Repeat(c).At(hour, minute).Success? <==> b.At(hour, minute).Success?
    ensures b.At(hour, minute).Success? ==>
      && b.WithUnit(u).At(hour, minute) == Success(b.At(hour, minute).value.WithUnit(u))
      && b.OnWeekday(d).At(hour, minute) == Success(b.At(hour, minute).value.OnWeekday(d))
      && b.Repeat(c).At(hour, minute) == Success(b.At(hour, minute).value.Repeat(c))
      && b.At(hour, minute).value.At(hour', minute') == b.At(hour', minute')
    ensures var s := b.OnWeekday(d).Repeat(c);
      s.interval == b.interval && s.timeUnit == b.timeUnit && s.atTime == b.atTime
  {
  }

  /** Start configuring a job that runs every `interval` units. */
  function Every(interval: U64): (b: Builder)
    ensures b.interval == interval
    ensures b.timeUnit.None? && b.atTime.None? && b.weekday.None? && b.repeat.None?
  {
    Builder(interval, None, None, None, None)
  }

  /** A job that has never run, configured as `b` with unit `unit`. */
  predicate FreshFrom(job: Job, b: Builder, unit: TimeUnit)
  {
    && job.interval == b.interval
    && job.timeUnit == unit
    && job.atTime == b.atTime
    && job.weekday == b.weekday
    && job.remainingRuns == b.repeat
    && job.lastRun.None?
  }

  /**
   Finalise `b` and register the job: exactly one job with an empty history
   is appended, or nothing is registered when no time unit was chosen.
   */
  function Do(jobs: seq<Job>, b: Builder): (r: Result<seq<Job>, ConfigError>)
    ensures r.Success? <==> b.timeUnit.Some?
    ensures r.Failure? ==> r.error == MissingTimeUnit
    ensures r.Success? ==>
      && |r.value| == |jobs| + 1
      && r.value[..|jobs|] == jobs
      && FreshFrom(r.value[|jobs|], b, b.timeUnit.value)
  {
    match b.timeUnit
    case None => Failure(MissingTimeUnit)
    case Some(unit) =>
      Success(jobs + [Job(b.interval, unit, b.atTime, None, b.weekday, b.repeat)])
  }

  /**
   A freshly registered job fires at its first evaluation whose weekday and
   time of day are right, unless it was configured to repeat zero times.
   */
  lemma FreshJobFiresWhenGatesOpen(jobs: seq<Job>, b: Builder, now: Instant)
    requires Do(jobs, b).Success?
    requires Do(jobs, b).value[|jobs|].IntervalInRange()
    ensures var job := Do(jobs, b).value[|jobs|];
      RunIfDue(job, now).fired <==>
        && b.repeat != Some(0)
        && (b.weekday.None? || b.weekday.value == WeekdayOf(now))
        && (b.atTime.None? || b.atTime.value.Seconds() <= SecondOfDay(now))
  {
  }

  /** Every job can be evaluated without the time library overflowing. */
  predicate AllInRange(jobs: seq<Job>)
  {
    forall i :: 0 <= i < |jobs| ==> jobs[i].IntervalInRange()
  }

  /** The registry after one tick, and the positions of the jobs that fired, in order. */
  datatype Tick = Tick(jobs: seq<Job>, fired: seq<nat>)

  /**
   One tick at `now`: every job is evaluated exactly once, in registration
   order, against the same instant, and its outcome depends on its own state
   alone.
   */
  function RunPending(jobs: seq<Job>, now: Instant): (r: Tick)
    requires AllInRange(jobs)
    ensures |r.jobs| == |jobs|
    ensures AllInRange(r.jobs)
    ensures forall i :: 0 <= i < |jobs| ==> r.jobs[i] == RunIfDue(jobs[i], now).job
    ensures forall i :: 0 <= i < |jobs| ==> (i in r.fired <==> Due(jobs[i], now))
    ensures forall k :: 0 <= k < |r.fired| ==> r.fired[k] < |jobs|
    ensures forall k, l :: 0 <= k < l < |r.fired| ==> r.fired[k] < r.fired[l]
    decreases |jobs|
  {
    if |jobs| == 0 then Tick([], [])
    else
      var n := |jobs| - 1;
      var before := RunPending(jobs[..n], now);
      var e := RunIfDue(jobs[n], now);
      Tick(before.jobs + [e.job], before.fired + (if e.fired then [n] else []))
  }

  /** The registry after a sequence of ticks, and the fired positions of each tick. */
  datatype Session = Session(jobs: seq<Job>, log: seq<seq<nat>>)

  /** Tick the registry at each instant of `nows` in turn. */
  function RunTicks(jobs: seq<Job>, nows: seq<Instant>): (r: Session)
    requires AllInRange(jobs)
    ensures |r.jobs| == |jobs| && |r.log| == |nows|
    ensures AllInRange(r.jobs)
    decreases |nows|
  {
    if |nows| == 0 then Session(jobs, [])
    else
      var t := RunPending(jobs, nows[0]);
      var rest := RunTicks(t.jobs, nows[1..]);
      Session(rest.jobs, [t.fired] + rest.log)
  }

  /** The instants of the ticks whose fired positions include `i`. */
  function FiredAt(i: nat, nows: seq<Instant>, log: seq<seq<nat>>): seq<Instant>
    requires |log| == |nows|
    decreases |nows|
  {
    if |nows| == 0 then []
    else (if i in log[0] then [nows[0]] else []) + FiredAt(i, nows[1..], log[1..])
  }

  /**
   Inside the registry each job behaves exactly as it would alone: after any
   ticks, job `i` is the job replayed on its own, and it fired at the same
   instants.
   */
  lemma {:induction false} JobsRunIndependently(jobs: seq<Job>, nows: seq<Instant>, i: nat)
    requires AllInRange(jobs)
    requires i < |jobs|
    ensures RunTicks(jobs, nows).jobs[i] == Replay(jobs[i], nows).job
    ensures FiredAt(i, nows, RunTicks(jobs, nows).log) == Replay(jobs[i], nows).firings
    decreases |nows|
  {
    if |nows| > 0 {
      var t := RunPending(jobs, nows[0]);
      JobsRunIndependently(t.jobs, nows[1..], i);
      var s := RunTicks(jobs, nows);
      assert s.log[1..] == RunTicks(t.jobs, nows[1..]).log;
    }
  }

  /** A registered job configured to repeat `n >= 0` times fires at most `n` times in any session. */
  lemma RegisteredRepeatCap(jobs: seq<Job>, nows: seq<Instant>, i: nat, n: int)
    requires AllInRange(jobs)
    requires i < |jobs| && jobs[i].remainingRuns == Some(n) && n >= 0
    ensures |FiredAt(i, nows, RunTicks(jobs, nows).log)| <= n
  {
    JobsRunIndependently(jobs, nows, i);
    RepeatCap(jobs[i], nows, n);
  }
}
