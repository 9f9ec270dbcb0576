# Periodic job scheduler — Dafny model

This project models the due-time decision engine of a single-threaded periodic
job scheduler written in Rust (`src/main.rs`). A job has a recurrence rule:
an interval, a time unit (seconds, minutes, hours, days or weeks), an optional
time of day and an optional weekday. It also has a run history: the instant it
last fired, and the number of firings left when a repeat count was set. On
every tick the registry asks each job whether it is due at the tick's instant.
A job that is due fires and records the firing.

The model is functional:

- `Clock` (clock.dfy): instants are whole UTC seconds since the epoch. It
  defines the calendar date (`t / 86400`, rounded down), the time of day
  (`t % 86400`) and the weekday (1970-01-01 was a Thursday).
- `Jobs` (jobs.dfy): the job record, the unit-to-seconds mapping, the five
  gates as separate predicates, and `RunIfDue`. `RunIfDue` is a pure step
  `(job, now) -> (job', fired)` that applies the gates in the order of `run_if_due`.
  The gates are exhaustion, weekday, interval (`>=`), time of day, and
  same-date suppression for day and week jobs with a time of day.
- `Trace` (trace.dfy): one job replayed over any sequence of tick instants.
  This module holds the safety properties over many ticks: the repeat cap,
  the spacing of firings, the weekday and time-of-day gates, and at most one
  firing per calendar date for day and week jobs with a time of day.
- `Registry` (registry.dfy): the builder, its finalisation `Do`, the tick
  `RunPending` over a `seq<Job>`, and sessions of many ticks. It also proves
  that each job inside the registry behaves exactly as it would alone.
- `Scenarios` (scenarios.dfy): worked examples of the engine's behaviour.
- `Wrappers` (wrappers.dfy): `Option` and `Result`.

The tick instant is a parameter. The Rust scheduler samples it from the wall clock
once per tick, and the model keeps that: every job in one tick sees the same
instant. The payload closure becomes the `fired` flag. The order of the
fired positions in a tick's result is the order in which `run_pending` invokes
the payloads.

In these places the code's behaviour may be unexpected; the model follows the code:

- An interval of 0 is accepted. Such a job passes the interval gate whenever
  the clock has not moved backwards since its last firing.
- A negative repeat count is accepted. The counter is an `i32` whose decrement
  wraps from the minimum to the maximum, as in an optimised build.
- Choosing a time unit, weekday, repeat count or time of day twice is not an error: the later choice wins.
- A malformed time of day makes `at` panic (`unwrap`). The model
  returns `Failure(BadTimeOfDay)` instead.
- A missing time unit makes `do_` panic (`expect`). The model returns
  `Failure(MissingTimeUnit)` instead, and nothing is registered.

## Model

| member | source | states |
|---|---|---|
| `Clock.DateOfMonotone` | src/main.rs:63 | The calendar date compared by the same-date check never decreases as the instant increases. |
| `Clock.NextDay` | src/main.rs:63 | One day later is the next calendar date, at the same time of day. |
| `Clock.WeekdayAdvancesDaily` | src/main.rs:33-37 | The weekday the weekday gate compares advances by exactly one weekday per day. |
| `Clock.WeekdayRepeatsWeekly` | src/main.rs:33-37 | One week later is the same weekday at the same time of day. |
| `Jobs.UnitSeconds` | src/main.rs:43-49 | Every unit is at least one second long; exactly Days and Weeks are whole numbers of days; a week is seven days; every unit except Seconds is whole minutes. |
| `Jobs.Job.Threshold` | src/main.rs:43-50 | The interval duration that the elapsed time is compared against is never negative, and it is zero exactly when the interval is 0. |
| `Jobs.WrappingDecrement` | src/main.rs:74-76 | Counting a firing off an `i32` counter lowers it by exactly one, except that the minimum wraps to the maximum. |
| `Jobs.RunIfDue` | src/main.rs:28-78 | The job fires exactly when all five gates are open (`Due`). A skip changes nothing. An exhausted job, or one on the wrong weekday, is inert whatever the elapsed time. A job never fires before its time of day, nor again on the date of its last firing if it is a day or week job with a time of day. A first evaluation always passes the interval gate. Firing sets the last run to `now`, counts a present counter down by one (an absent one stays absent) and keeps interval, unit, time of day and weekday. A firing is at least one interval after the previous one, and the last run never moves backwards. |
| `Jobs.NoRefireAtSameInstant` | src/main.rs:39-50 | A job with a nonzero interval that just fired at `now` is not due again at the same `now`. |
| `Jobs.NoRefireSameDate` | src/main.rs:60-68 | A day or week job with a time of day that just fired is not due again on the same date, even with a zero interval. |
| `Jobs.SameDateCheckNeedsZeroInterval` | src/main.rs:39-68 | For a day or week job with an interval of at least 1, passing the interval gate already puts `now` on a later date than the last run. So the same-date suppression at lines 60-68 can only refuse a job whose interval is 0. |
| `Trace.Replay` | src/main.rs:28-78 | Over any ticks, the rule is unchanged, an absent counter stays absent and a present one stays present, and every firing instant is one of the tick instants. |
| `Trace.ExhaustedStaysInert` | src/main.rs:29-31 | A job whose counter is zero never fires again and its state never changes, over any ticks. |
| `Trace.RepeatCap` | src/main.rs:29-76 | A job whose counter starts at `n >= 0` fires at most `n` times over any ticks, and its counter then equals `n` minus the number of firings. |
| `Trace.LastRunIsLatestFiring` | src/main.rs:73 | After any ticks, the last run is the latest firing, or the old last run if the job never fired. |
| `Trace.FiringsRespectInterval` | src/main.rs:39-50 | Consecutive firings are at least `interval x unit` seconds apart, and the first firing is at least that long after the previous last run. |
| `Trace.SpacingAccumulates` | src/main.rs:39-50 | With consecutive firings at least one interval apart, firings `i < j` are at least `(j - i)` intervals apart. |
| `Trace.WindowHoldsFewFirings` | src/main.rs:39-50 | With consecutive firings at least one nonzero interval apart, the firings that fit in a window shorter than `k` intervals number at most `k`. |
| `Trace.FiringsInOrder` | src/main.rs:39-50 | Firings occur in nondecreasing time order, and never before the previous last run, even if the tick instants go backwards. |
| `Trace.FiringsOnWantedWeekday` | src/main.rs:33-37 | A job restricted to a weekday fires only on that weekday, over any ticks. |
| `Trace.FiringsAfterTimeOfDay` | src/main.rs:55-58 | A job with a time of day never fires earlier in the day than that time, over any ticks. |
| `Trace.OneFiringPerDate` | src/main.rs:60-68 | For a day or week job with a time of day, each firing falls on a strictly later date than the previous one, and than the previous last run. |
| `Trace.FiringDatesDistinct` | src/main.rs:60-68 | For a day or week job with a time of day, no two firings share a calendar date. |
| `Registry.Builder.WithUnit` | src/main.rs:119-138 | Choosing a time unit (`seconds()` … `week()`) sets the unit and leaves the interval, time of day, weekday and repeat count as they were. |
| `Registry.Builder.At` | src/main.rs:140-143 | A time of day is accepted exactly when the hour is 0-23 and the minute is 0-59. An accepted time compares as `hour*3600 + minute*60` seconds and changes no other setting. A rejected one is a time-of-day error. |
| `Registry.Builder.OnWeekday` | src/main.rs:145-172 | Choosing a weekday (`monday()` … `sunday()`) sets the weekday and leaves the interval, unit, time of day and repeat count as they were. |
| `Registry.Builder.Repeat` | src/main.rs:174-177 | Setting a repeat count sets it and leaves the interval, unit, time of day and weekday as they were. |
| `Registry.SettersIndependent` | src/main.rs:119-177 | Setters of two different settings commute: unit, weekday and repeat pairwise, and a time of day set by `At` with each of them. So a chain that sets each setting at most once gives the same builder in any order. Whether `At` accepts a time of day does not depend on the other settings. For one setting the later call wins, for the unit, the weekday, the repeat count and the time of day alike, so such a chain does depend on order. |
| `Registry.Every` | src/main.rs:90-99 | A new configuration carries the interval and has no unit, time of day, weekday or repeat count. |
| `Registry.Do` | src/main.rs:179-194 | Finalising succeeds exactly when a time unit was chosen, otherwise it is a missing-unit error. On success exactly one job is appended and the existing jobs are unchanged. The new job has the configured rule, no last run, and remaining runs equal to the repeat count. |
| `Registry.FreshJobFiresWhenGatesOpen` | src/main.rs:183-191 | A newly registered job fires at its first evaluation where the weekday and time of day allow it, unless its repeat count is zero. |
| `Registry.RunPending` | src/main.rs:101-106 | One tick evaluates every job once against the same instant. Each job's new state and decision depend only on its own state. No job is added or removed. Fired positions are reported in registration order. |
| `Registry.RunTicks` | src/main.rs:101-106 | Across any number of ticks, no job is added or removed, and there is one fired list per tick. |
| `Registry.JobsRunIndependently` | src/main.rs:101-106 | After any ticks, job `i` of the registry is the job replayed alone over the same instants. It fired at exactly the same instants. |
| `Registry.RegisteredRepeatCap` | src/main.rs:29-76 | Inside the registry, a job whose counter starts at `n >= 0` fires at most `n` times in any session. |
| `Scenarios.EveryThreeSecondsThreeTimes` | src/main.rs:200-204 | `every(3).seconds().repeat(3)`, polled once a second from 0, fires at 0, 3 and 6, then never again, and ends with its counter at zero. |
| `Scenarios.DailyJobOncePerDate` | src/main.rs:39-68 | A daily job at 19:24 that fired at 19:24 today is refused at 20:00 today by the interval gate (less than a day has passed), and fires at 19:25 tomorrow. |
| `Scenarios.ZeroIntervalDailyJobOncePerDate` | src/main.rs:60-68 | The same job with a zero interval passes the interval and time-of-day gates at 20:00 today, and the same-date suppression refuses it. It fires again at 19:25 tomorrow. |
| `Scenarios.TuesdayJobSkipsWednesday` | src/main.rs:33-37 | A Tuesday job is inert on a Wednesday, whatever its time of day or history. |
| `Scenarios.IntervalBoundaryIsInclusive` | src/main.rs:50 | A 5-hour job that last ran exactly 5 hours ago is due. One second less is not enough. |

## Left out

- The wall-clock driver is not modelled: `main`'s polling loop, `thread::sleep` and the `Utc::now()` sampling in `run_pending`. The instant is a parameter of every tick.
- The payload closure and its invocation are not modelled. The closure is opaque, so a firing is only the `fired` flag, in registration order within a tick.
- The "HH:MM" string grammar of the time library's parser is not modelled. `At` takes the hour and minute already split out.
- The time library's calendar internals, leap seconds and sub-second precision are not modelled. Instants are whole seconds, and the time of day from an "HH:MM" literal has zero seconds.
- The `Scheduler` trait and its boxing are not modelled. The registry is a sequence of job records, since there is only one implementation.
- Jobs.RunIfDue: requires `interval x unit <= i64::MAX / 1000` seconds for every job. `run_if_due` panics only when it actually builds the duration, which happens on the path where the job has a last run and passed the exhaustion and weekday gates. Intervals of `2^63` or more, which the `u64 as i64` cast would wrap to negative durations, are also excluded.
- Trace.Replay: requires the same interval bound on the replayed job.
- Registry.RunPending: requires the same interval bound on every registered job.
- Registry.RunTicks: requires the same interval bound on every registered job.
- Instants outside the time library's representable range are not modelled, and neither is any overflow in `now - last`.
- A debug build panics when an `i32` counter is decremented below `i32::MIN`. This is not modelled: the model uses the wrapping decrement of an optimised build.
