/**
 Worked examples of the scheduler's behaviour, each checked against the model.
 */
module Scenarios {
  import opened Wrappers
  import opened Clock
  import opened Jobs
  import opened Trace
  import opened Registry

  /**
   `every(3).seconds().repeat(3)` polled once a second from t = 0: it fires at
   0, 3 and 6 and then never again, its counter at zero.
   */
  lemma EveryThreeSecondsThreeTimes()
    ensures Do([], Every(3).WithUnit(Seconds).Repeat(3)).Success?
    ensures var job := Do([], Every(3).WithUnit(Seconds).Repeat(3)).value[0];
      var r := Replay(job, [0, 1, 2, 3, 4, 5, 6, 7, 8, 9]);
      r.firings == [0, 3, 6] && r.job.remainingRuns == Some(0)
  {
    assert Do([], Every(3).WithUnit(Seconds).Repeat(3)).value[0] == Job(3, Seconds, None, None, None, Some(3));
    CountdownReplay(Job(3, Seconds, None, None, None, Some(3)), [0, 1, 2, 3, 4, 5, 6, 7, 8, 9]);
  }

  /** The three-second job replayed over the ticks 0 through 9. */
  lemma CountdownReplay(job: Job, nows: seq<Instant>)
    requires job == Job(3, Seconds, None, None, None, Some(3))
    requires nows == [0, 1, 2, 3, 4, 5, 6, 7, 8, 9]
    ensures Replay(job, nows) == Run(Job(3, Seconds, None, Some(6), None, Some(0)), [0, 3, 6])
  {
    var j0 := Job(3, Seconds, None, Some(0), None, Some(2));
    CountdownSteps();
    CountdownFromOne(j0, nows);
    Step(job, nows, 0, j0, true);
  }

  /** After its first firing at 0, the job fires at 3 and 6 among the ticks 1 through 9. */
  lemma CountdownFromOne(j0: Job, nows: seq<Instant>)
    requires j0 == Job(3, Seconds, None, Some(0), None, Some(2))
    requires nows == [0, 1, 2, 3, 4, 5, 6, 7, 8, 9]
    ensures Replay(j0, nows[1..]) == Run(Job(3, Seconds, None, Some(6), None, Some(0)), [3, 6])
  {
    var j3 := Job(3, Seconds, None, Some(3), None, Some(1));
    CountdownSteps();
    CountdownFromFour(j3, nows);
    Step(j0, nows, 3, j3, true);
    Step(j0, nows, 2, j0, false);
    Step(j0, nows, 1, j0, false);
  }

  /** After its firing at 3, the job fires only at 6 among the ticks 4 through 9. */
  lemma CountdownFromFour(j3: Job, nows: seq<Instant>)
    requires j3 == Job(3, Seconds, None, Some(3), None, Some(1))
    requires nows == [0, 1, 2, 3, 4, 5, 6, 7, 8, 9]
    ensures Replay(j3, nows[4..]) == Run(Job(3, Seconds, None, Some(6), None, Some(0)), [6])
  {
    var j6 := Job(3, Seconds, None, Some(6), None, Some(0));
    CountdownSteps();
    ExhaustedStaysInert(j6, nows[7..]);
    Step(j3, nows, 6, j6, true);
    Step(j3, nows, 5, j3, false);
    Step(j3, nows, 4, j3, false);
  }

  /** The seven evaluations of the three-second job up to its last firing. */
  lemma CountdownSteps()
    ensures var j0 := Job(3, Seconds, None, Some(0), None, Some(2));
      var j3 := Job(3, Seconds, None, Some(3), None, Some(1));
      var j6 := Job(3, Seconds, None, Some(6), None, Some(0));
      && RunIfDue(Job(3, Seconds, None, None, None, Some(3)), 0) == Evaluation(j0, true)
      && RunIfDue(j0, 1) == Evaluation(j0, false)
      && RunIfDue(j0, 2) == Evaluation(j0, false)
      && RunIfDue(j0, 3) == Evaluation(j3, true)
      && RunIfDue(j3, 4) == Evaluation(j3, false)
      && RunIfDue(j3, 5) == Evaluation(j3, false)
      && RunIfDue(j3, 6) == Evaluation(j6, true)
  {
  }

  /** Replaying from position `k` is one evaluation followed by the replay from `k + 1`. */
  lemma Step(job: Job, nows: seq<Instant>, k: nat, next: Job, fired: bool)
    requires k < |nows|
    requires job.IntervalInRange()
    requires RunIfDue(job, nows[k]) == Evaluation(next, fired)
    ensures Replay(job, nows[k..]) ==
      Run(Replay(next, nows[k + 1..]).job, (if fired then [nows[k]] else []) + Replay(next, nows[k + 1..]).firings)
  {
    assert nows[k..][1..] == nows[k + 1..];
  }

  /** 19:24 as seconds of the day. */
  const NineteenTwentyFour: int := 19 * SecondsPerHour + 24 * SecondsPerMinute

  /**
   A daily job at 19:24 that fired at 19:24 today skips at 20:00 today and
   fires at 19:25 tomorrow. The skip at 20:00 comes from the interval gate:
   less than a day has passed.
   */
  lemma DailyJobOncePerDate(day: int, remaining: Option<I32>)
    requires remaining != Some(0)
    ensures var job := Job(1, Days, Some(TimeOfDay(19, 24)), Some(day * SecondsPerDay + NineteenTwentyFour), None, remaining);
      && !IntervalElapsed(job, day * SecondsPerDay + 20 * SecondsPerHour)
      && !RunIfDue(job, day * SecondsPerDay + 20 * SecondsPerHour).fired
      && RunIfDue(job, (day + 1) * SecondsPerDay + NineteenTwentyFour + SecondsPerMinute).fired
  {
    DivUnique(day * SecondsPerDay + NineteenTwentyFour, day, NineteenTwentyFour);
    DivUnique(day * SecondsPerDay + 20 * SecondsPerHour, day, 20 * SecondsPerHour);
    DivUnique((day + 1) * SecondsPerDay + NineteenTwentyFour + SecondsPerMinute, day + 1, NineteenTwentyFour + SecondsPerMinute);
  }

  /**
   With a zero interval, the same job passes the interval gate at 20:00 and
   it is the same-date suppression that stops a second firing that day; the
   next day at 19:25 it fires again.
   */
  lemma ZeroIntervalDailyJobOncePerDate(day: int, remaining: Option<I32>)
    requires remaining != Some(0)
    ensures var job := Job(0, Days, Some(TimeOfDay(19, 24)), Some(day * SecondsPerDay + NineteenTwentyFour), None, remaining);
      var evening := day * SecondsPerDay + 20 * SecondsPerHour;
      && IntervalElapsed(job, evening)
      && TimeOfDayReached(job, evening)
      && FiredEarlierToday(job, evening)
      && !RunIfDue(job, evening).fired
      && RunIfDue(job, (day + 1) * SecondsPerDay + NineteenTwentyFour + SecondsPerMinute).fired
  {
    DivUnique(day * SecondsPerDay + NineteenTwentyFour, day, NineteenTwentyFour);
    DivUnique(day * SecondsPerDay + 20 * SecondsPerHour, day, 20 * SecondsPerHour);
    DivUnique((day + 1) * SecondsPerDay + NineteenTwentyFour + SecondsPerMinute, day + 1, NineteenTwentyFour + SecondsPerMinute);
  }

  /** A weekly Tuesday job never fires on a Wednesday, whatever its time of day or history. */
  lemma TuesdayJobSkipsWednesday(job: Job, now: Instant)
    requires job.IntervalInRange()
    requires job.weekday == Some(Tue)
    requires WeekdayOf(now) == Wed
    ensures RunIfDue(job, now) == Evaluation(job, false)
  {
  }

  /** An unrestricted job every 5 hours that last ran exactly 5 hours ago is due: the boundary counts. */
  lemma IntervalBoundaryIsInclusive(now: Instant, remaining: Option<I32>)
    requires remaining != Some(0)
    ensures RunIfDue(Job(5, Hours, None, Some(now - 5 * SecondsPerHour), None, remaining), now).fired
    ensures !RunIfDue(Job(5, Hours, None, Some(now - 5 * SecondsPerHour + 1), None, remaining), now).fired
  {
  }
}
