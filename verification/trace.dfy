/**
 A single job evaluated over a sequence of ticks, and the safety properties
 that hold over any such sequence: the repeat cap, the minimum spacing between
 firings, the weekday and time-of-day gates, and at most one firing per date
 for day- and week-granular jobs with a time of day.

 The tick instants are arbitrary: nothing assumes the clock only moves forward.
 */
module Trace {
  import opened Wrappers
  import opened Clock
  import opened Jobs

  /** The job after a sequence of ticks, and the instants at which it fired, in order. */
  datatype Run = Run(job: Job, firings: seq<Instant>)

  /** Evaluate `job` at each instant of `nows` in turn. */
  function Replay(job: Job, nows: seq<Instant>): (r: Run)
    requires job.IntervalInRange()
    ensures r.job.SameRule(job)
    ensures r.job.remainingRuns.None? <==> job.remainingRuns.None?
    ensures |r.firings| <= |nows|
    ensures forall k :: 0 <= k < |r.firings| ==> r.firings[k] in nows
    decreases |nows|
  {
    if |nows| == 0 then Run(job, [])
    else
      var e := RunIfDue(job, nows[0]);
      var rest := Replay(e.job, nows[1..]);
      Run(rest.job, (if e.fired then [nows[0]] else []) + rest.firings)
  }

  /** An exhausted job stays exactly as it is and never fires again. */
  lemma {:induction false} ExhaustedStaysInert(job: Job, nows: seq<Instant>)
    requires job.IntervalInRange()
    requires Exhausted(job)
    ensures Replay(job, nows) == Run(job, [])
    decreases |nows|
  {
    if |nows| > 0 {
      ExhaustedStaysInert(job, nows[1..]);
    }
  }

  /**
   A job configured to repeat `n >= 0` times fires at most `n` times over any
   ticks, and its counter records exactly how many firings are left.
   */
  lemma {:induction false} RepeatCap(job: Job, nows: seq<Instant>, n: int)
    requires job.IntervalInRange()
    requires job.remainingRuns == Some(n) && n >= 0
    ensures |Replay(job, nows).firings| <= n
    ensures Replay(job, nows).job.remainingRuns == Some(n - |Replay(job, nows).firings|)
    decreases |nows|
  {
    if |nows| > 0 {
      var e := RunIfDue(job, nows[0]);
      if e.fired {
        RepeatCap(e.job, nows[1..], n - 1);
      } else {
        RepeatCap(e.job, nows[1..], n);
      }
    }
  }

  /** The last run after the ticks is the latest firing, or the old last run if none. */
  lemma {:induction false} LastRunIsLatestFiring(job: Job, nows: seq<Instant>)
    requires job.IntervalInRange()
    ensures var r := Replay(job, nows);
      r.job.lastRun == if |r.firings| == 0 then job.lastRun else Some(r.firings[|r.firings| - 1])
    decreases |nows|
  {
    if |nows| > 0 {
      LastRunIsLatestFiring(RunIfDue(job, nows[0]).job, nows[1..]);
    }
  }

  /**
   Consecutive firings, and the previous last run and the first firing, are
   at least `gap` seconds apart.
   */
  ghost predicate Spaced(last: Option<Instant>, fs: seq<Instant>, gap: int)
  {
    && (last.Some? && |fs| > 0 ==> fs[0] - last.value >= gap)
    && forall k :: 0 <= k < |fs| - 1 ==> fs[k + 1] - fs[k] >= gap
  }

  /** Any two firings of a job are at least one interval apart: the rate limit. */
  lemma {:induction false} FiringsRespectInterval(job: Job, nows: seq<Instant>)
    requires job.IntervalInRange()
    ensures Spaced(job.lastRun, Replay(job, nows).firings, job.Threshold())
    decreases |nows|
  {
    if |nows| > 0 {
      var e := RunIfDue(job, nows[0]);
      FiringsRespectInterval(e.job, nows[1..]);
      var rest := Replay(e.job, nows[1..]);
      if e.fired {
        var fs := [nows[0]] + rest.firings;
        assert Replay(job, nows).firings == fs;
        forall k | 0 <= k < |fs| - 1
          ensures fs[k + 1] - fs[k] >= job.Threshold()
        {
          if k > 0 {
            assert fs[k] == rest.firings[k - 1];
          }
        }
      }
    }
  }

  /**
   Spacing adds up: with consecutive firings `gap` apart, firings `i < j` are
   at least `(j - i) * gap` apart, so a window shorter than `k * gap` holds at
   most `k` firings.
   */
  lemma {:induction false} SpacingAccumulates(fs: seq<Instant>, gap: int, i: int, j: int)
    requires forall k :: 0 <= k < |fs| - 1 ==> fs[k + 1] - fs[k] >= gap
    requires 0 <= i <= j < |fs|
    ensures fs[j] - fs[i] >= (j - i) * gap
    decreases j - i
  {
    if i < j {
      SpacingAccumulates(fs, gap, i, j - 1);
      assert fs[j] - fs[j - 1] >= gap;
      assert (j - i) * gap == (j - 1 - i) * gap + gap;
    }
  }

  /**
   The rate limit as a window bound: with consecutive firings at least
   `gap > 0` apart, firings `i..j` that fit in a window shorter than
   `k * gap` number at most `k`.
   */
  lemma WindowHoldsFewFirings(fs: seq<Instant>, gap: int, i: int, j: int, k: int)
    requires forall m :: 0 <= m < |fs| - 1 ==> fs[m + 1] - fs[m] >= gap
    requires gap > 0
    requires 0 <= i <= j < |fs|
    requires fs[j] - fs[i] < k * gap
    ensures j - i + 1 <= k
  {
    SpacingAccumulates(fs, gap, i, j);
    var slack := k - (j - i);
    assert slack * gap == k * gap - (j - i) * gap;
    NonPositiveProduct(slack, gap);
  }

  /** A non-positive number times a positive one is non-positive. */
  lemma NonPositiveProduct(x: int, g: int)
    requires g > 0
    ensures x <= 0 ==> x * g <= 0
  {
  }

  /** A product of two non-negative numbers is non-negative. */
  lemma NonNegativeProduct(a: int, b: int)
    requires a >= 0 && b >= 0
    ensures a * b >= 0
  {
  }

  /** Firings happen in time order and never before the previous last run. */
  lemma FiringsInOrder(job: Job, nows: seq<Instant>)
    requires job.IntervalInRange()
    ensures var fs := Replay(job, nows).firings;
      && (forall i, j :: 0 <= i <= j < |fs| ==> fs[i] <= fs[j])
      && (job.lastRun.Some? ==> forall i :: 0 <= i < |fs| ==> job.lastRun.value <= fs[i])
  {
    var fs, gap := Replay(job, nows).firings, job.Threshold();
    FiringsRespectInterval(job, nows);
    forall i, j | 0 <= i <= j < |fs|
      ensures fs[i] <= fs[j]
    {
      SpacingAccumulates(fs, gap, i, j);
      NonNegativeProduct(j - i, gap);
    }
    if job.lastRun.Some? && |fs| > 0 {
      forall i | 0 <= i < |fs|
        ensures job.lastRun.value <= fs[i]
      {
        SpacingAccumulates(fs, gap, 0, i);
        NonNegativeProduct(i, gap);
      }
    }
  }

  /** A job restricted to a weekday only ever fires on that weekday. */
  lemma {:induction false} FiringsOnWantedWeekday(job: Job, nows: seq<Instant>)
    requires job.IntervalInRange()
    requires job.weekday.Some?
    ensures forall t :: t in Replay(job, nows).firings ==> WeekdayOf(t) == job.weekday.value
    decreases |nows|
  {
    if |nows| > 0 {
      FiringsOnWantedWeekday(RunIfDue(job, nows[0]).job, nows[1..]);
    }
  }

  /** A job with a time of day never fires earlier in the day than it. */
  lemma {:induction false} FiringsAfterTimeOfDay(job: Job, nows: seq<Instant>)
    requires job.IntervalInRange()
    requires job.atTime.Some?
    ensures forall t :: t in Replay(job, nows).firings ==> job.atTime.value.Seconds() <= SecondOfDay(t)
    decreases |nows|
  {
    if |nows| > 0 {
      FiringsAfterTimeOfDay(RunIfDue(job, nows[0]).job, nows[1..]);
    }
  }

  /** Each firing falls on a later date than the one before it (and than the previous last run). */
  ghost predicate DatesAdvance(last: Option<Instant>, fs: seq<Instant>)
  {
    && (last.Some? && |fs| > 0 ==> DateOf(last.value) < DateOf(fs[0]))
    && forall k :: 0 <= k < |fs| - 1 ==> DateOf(fs[k]) < DateOf(fs[k + 1])
  }

  /**
   A day- or week-granular job with a time of day fires at most once per
   calendar date: each firing is on a strictly later date than the last.
   */
  lemma {:induction false} OneFiringPerDate(job: Job, nows: seq<Instant>)
    requires job.IntervalInRange()
    requires job.atTime.Some? && (job.timeUnit.Days? || job.timeUnit.Weeks?)
    ensures DatesAdvance(job.lastRun, Replay(job, nows).firings)
    decreases |nows|
  {
    if |nows| > 0 {
      var e := RunIfDue(job, nows[0]);
      OneFiringPerDate(e.job, nows[1..]);
      var rest := Replay(e.job, nows[1..]);
      if e.fired {
        var fs := [nows[0]] + rest.firings;
        assert Replay(job, nows).firings == fs;
        if job.lastRun.Some? {
          DateOfMonotone(job.lastRun.value, nows[0]);
        }
        forall k | 0 <= k < |fs| - 1
          ensures DateOf(fs[k]) < DateOf(fs[k + 1])
        {
          if k > 0 {
            assert fs[k] == rest.firings[k - 1];
          }
        }
      }
    }
  }

  /** Dates of firings are pairwise distinct. */
  lemma FiringDatesDistinct(job: Job, nows: seq<Instant>)
    requires job.IntervalInRange()
    requires job.atTime.Some? && (job.timeUnit.Days? || job.timeUnit.Weeks?)
    ensures var fs := Replay(job, nows).firings;
      forall i, j :: 0 <= i < j < |fs| ==> DateOf(fs[i]) < DateOf(fs[j])
  {
    var fs := Replay(job, nows).firings;
    OneFiringPerDate(job, nows);
    forall i, j | 0 <= i < j < |fs|
      ensures DateOf(fs[i]) < DateOf(fs[j])
    {
      DatesIncrease(fs, i, j);
    }
  }

  /** Dates that increase step by step increase between any two positions. */
  lemma {:induction false} DatesIncrease(fs: seq<Instant>, i: int, j: int)
    requires forall k :: 0 <= k < |fs| - 1 ==> DateOf(fs[k]) < DateOf(fs[k + 1])
    requires 0 <= i < j < |fs|
    ensures DateOf(fs[i]) < DateOf(fs[j])
    decreases j - i
  {
    if i < j - 1 {
      DatesIncrease(fs, i, j - 1);
    }
  }
}
