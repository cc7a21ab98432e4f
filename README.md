# TimeStats: a verified model of a streaming jitter collector

The repository measures how regularly a periodic callback fires. Each call hands
a timestamp to a `TimeStats` collector. The collector takes the duration since
the previous timestamp and skips the first `initcount` calls as warm-up. After
that it keeps a running maximum, a running minimum and a running average of the
durations, and every `logcount` calls it prints a report line. There are two
variants:

- the C++ class in `CSampleRobot/src/Robot.cpp`;
- the Java class in `JSampleRobot/.../TimeStats.java`. It adds Welford's `sq`
  accumulator for a standard deviation, and it calls `Reset()` after every
  report, so its `min` and `max` cover only the durations since the last report.

A third part models the first-call guard of the C++ `Robot::handler`. Its
one-time setup names the thread, gives it a FIFO real-time priority and starts
the timer. After that, every call records the timer's elapsed time.

## How the model is built

- `jitter.dfy` (module `Jitter`) holds what both collectors share. Timestamps
  are `real`. `Durations(h)` are the inter-arrival durations of a history `h`;
  the first is measured against 0. `Included(h, warmup)` keeps the durations of
  the calls whose count before the increment exceeds the warm-up.
  `IsReportAt(j, warmup, every)` says whether call `j` reports. `MaxOf`, `MinOf`,
  `ZeroSeededMean` and `SquaredDeviations` are the reference statistics.
- `cpp_time_stats.dfy` and `java_time_stats.dfy` model each collector as a
  `class` with the source's fields and two ghost fields. `history` lists every
  timestamp passed to `Record`. `reports` lists every report printed, as a
  tuple. `Step` is one call of `Record` as the code computes it. `Run(h)` folds
  `Step` over a history. `Valid()` says the fields equal `Run(history)`. Each
  `Record` method is proved to move the fields by exactly one `Step`.
  `RunStatistics` then proves by induction what `Run(h)` is in closed form: the
  extremes, the zero-seeded mean, the squared deviations, and the reports
  `ReportsOf(h)`. For Java, the extremes are taken over the window since the
  last report.
- `handler.dfy` (module `Handler`) models the statics of `Robot::handler` as an
  object. The call counter and the clock time of each call are kept. The
  operating-system calls become events in a ghost trace.

### What the average is

One might expect `avg` to be the arithmetic mean of the included durations,
and so to lie between `min` and `max`. The code computes something else, and
this model follows the code:

- `avg` starts at 0.
- The first included sample is averaged against that 0 with weight
  `count - initcount = 1`.
- So after k samples `avg` is their total divided by k + 1 (`ZeroSeededMean`).
  This is the mean of the list 0, d1, ..., dk.

`Jitter.ZeroSeededMeanBelowMin` shows that for equal positive durations the
average lies strictly below the minimum. `CppTimeStats.HandlerConfigurationFirstReport`
shows the same for the handler's 200/200 configuration: a 5 ms tick reports an
average of 200/201 of the period. The same reasoning makes the Java `sq` the
sum of squared deviations of 0, d1, ..., dk, not of d1, ..., dk.

## Model

| member | source | states |
|---|---|---|
| `CppTimeStats.TimeStats.constructor` | CSampleRobot/src/Robot.cpp:21-25 | min = 1E6, max = 0, avg = 0, count = 0, prev = 0, and the given cadence and warm-up; the collector is valid over the empty history |
| `CppTimeStats.Step` | CSampleRobot/src/Robot.cpp:27-40 | one call: count + 1 and prev = timer; a call with count <= initcount changes no statistic; a report is appended iff count > initcount and count % logcount == 0, carrying the updated max, min, avg and the pre-increment count |
| `CppTimeStats.TimeStats.Record` | CSampleRobot/src/Robot.cpp:27-40 | the fields move by exactly one `Step`, the history grows by the timestamp, the cadence and warm-up are unchanged and validity is kept |
| `CppTimeStats.RunStatistics` | CSampleRobot/src/Robot.cpp:21-40 | from the constructor state, count is the number of calls, prev the last timestamp, max the maximum of 0 and all included durations, min the minimum of 1E6 and them, avg their zero-seeded mean, and the reports are `ReportsOf` the history |
| `CppTimeStats.ZeroSeededAverage` | CSampleRobot/src/Robot.cpp:32 | after k included samples (k = calls past the warm-up) avg * (k + 1) equals their total |
| `CppTimeStats.ExtremesOrdered` | CSampleRobot/src/Robot.cpp:30-31 | once a sample is included, min <= max |
| `CppTimeStats.ReportsAtReportPositions` | CSampleRobot/src/Robot.cpp:29-36 | every report comes from a call with count > initcount and count % logcount == 0, and carries the statistics of the history up to and including that call |
| `CppTimeStats.ReportsInCallOrder` | CSampleRobot/src/Robot.cpp:34-39 | reports appear in the order of their counts, strictly increasing |
| `CppTimeStats.EveryReportPositionReports` | CSampleRobot/src/Robot.cpp:29-36 | conversely, every call with count > initcount and count % logcount == 0 prints a report |
| `CppTimeStats.ReportedMinAtMostMax` | CSampleRobot/src/Robot.cpp:30-35 | in every report, min <= max |
| `CppTimeStats.ReportsOfNoPosition` | CSampleRobot/src/Robot.cpp:34-36 | a history without a report position prints nothing, so nothing is printed during the warm-up |
| `CppTimeStats.ReportsOfSinglePosition` | CSampleRobot/src/Robot.cpp:34-36 | a history with exactly one report position prints exactly that call's report |
| `CppTimeStats.EvenlySpacedReport` | CSampleRobot/src/Robot.cpp:28-35 | for timestamps 0, p, 2p, ... a report over k samples shows max = min = p and avg = k p / (k + 1) |
| `CppTimeStats.HandlerConfigurationFirstReport` | CSampleRobot/src/Robot.cpp:133 | with the handler's `TimeStats(200, 200)`, 401 regular ticks print exactly one report, at count 400, with max = min = p and avg = 200 p / 201 |
| `Jitter.MaxOfIsMaximum` | CSampleRobot/src/Robot.cpp:30 | the running maximum bounds the base and every sample, and is the base or one of the samples |
| `Jitter.MinOfIsMinimum` | CSampleRobot/src/Robot.cpp:31 | the running minimum is below the base and every sample, and is the base or one of the samples |
| `Jitter.MinAtMostMax` | CSampleRobot/src/Robot.cpp:30-31 | over at least one sample, min from 1E6 is at most max from 0 |
| `Jitter.MeanUpdate` | CSampleRobot/src/Robot.cpp:32 | the incremental update with weight k + 1 turns the zero-seeded mean of k samples into that of k + 1 |
| `Jitter.MeanTimesCount` | CSampleRobot/src/Robot.cpp:32 | the zero-seeded mean times (k + 1) is the total |
| `Jitter.ZeroSeededMeanBelowMin` | CSampleRobot/src/Robot.cpp:22-32 | for equal positive durations the average is k p / (k + 1), strictly below min = max = p |
| `Jitter.IncludedAppend` | CSampleRobot/src/Robot.cpp:28-29 | a call contributes its duration iff its pre-increment count exceeds the warm-up |
| `Jitter.DurationsAt` | CSampleRobot/src/Robot.cpp:28-38 | call j's duration is timestamp j minus timestamp j - 1, and the first call measures against 0 |
| `Jitter.IncludedTelescopes` | CSampleRobot/src/Robot.cpp:28-38 | the included durations add up to the time between the last warm-up timestamp and the latest one |
| `Jitter.EvenlySpacedDurations` | CSampleRobot/src/Robot.cpp:28 | timestamps spaced p apart from 0 give included durations that all equal p |
| `Jitter.WelfordStep` | JSampleRobot/src/org/usfirst/frc/team846/robot/TimeStats.java:22-24 | appending d to a list with mean a, and recentring on the new mean a', adds (d - a)(d - a') to the squared deviations |
| `Jitter.ZeroSeededWelford` | JSampleRobot/src/org/usfirst/frc/team846/robot/TimeStats.java:22-24 | the `sq +=` line keeps sq equal to the squared deviations of 0, d1, ..., dk from the zero-seeded mean |
| `Jitter.SquaredDeviationsNonnegative` | JSampleRobot/src/org/usfirst/frc/team846/robot/TimeStats.java:28 | squared deviations are never negative |
| `JavaTimeStats.TimeStats.constructor` | JSampleRobot/src/org/usfirst/frc/team846/robot/TimeStats.java:8-11 | count = 0, prev = 0, avg = 0, sq = 0, min = 1E6, max = 0 (through `Reset`); valid over the empty history |
| `JavaTimeStats.TimeStats.Reset` | JSampleRobot/src/org/usfirst/frc/team846/robot/TimeStats.java:13-15 | only min (to 1E6) and max (to 0) change; avg, sq, count, prev and the rest are untouched |
| `JavaTimeStats.TimeStats.Record` | JSampleRobot/src/org/usfirst/frc/team846/robot/TimeStats.java:17-34 | the fields move by exactly one `Step`, the history grows by the timestamp, validity is kept |
| `JavaTimeStats.StepBookkeeping` | JSampleRobot/src/org/usfirst/frc/team846/robot/TimeStats.java:17-34 | every call: count + 1 and prev = timer; a warm-up call changes nothing else; past the warm-up avg and sq take the incremental updates; a reporting call appends its report with variance sq / (count - initcount) and leaves min and max at the sentinels; otherwise no report |
| `JavaTimeStats.RunStatistics` | JSampleRobot/src/org/usfirst/frc/team846/robot/TimeStats.java:8-34 | a collector that has recorded h is in the reference state of h: extremes of the window, zero-seeded mean, squared deviations and `ReportsOf(h)` |
| `JavaTimeStats.StepExpected` | JSampleRobot/src/org/usfirst/frc/team846/robot/TimeStats.java:17-34 | one call takes the reference state of h to that of h + [timer] |
| `JavaTimeStats.WarmupStepExpected` | JSampleRobot/src/org/usfirst/frc/team846/robot/TimeStats.java:18-33 | during the warm-up a call changes nothing but count and prev |
| `JavaTimeStats.IncludedStepExpected` | JSampleRobot/src/org/usfirst/frc/team846/robot/TimeStats.java:19-24 | a non-reporting call past the warm-up extends the window and the included samples by its duration |
| `JavaTimeStats.ReportingStepExpected` | JSampleRobot/src/org/usfirst/frc/team846/robot/TimeStats.java:26-30 | a reporting call prints the reference report and empties the window |
| `JavaTimeStats.IncludedExtremes` | JSampleRobot/src/org/usfirst/frc/team846/robot/TimeStats.java:20-21 | a non-reporting call past the warm-up takes min and max of their old values and its duration, matching the extended window |
| `JavaTimeStats.IncludedMoments` | JSampleRobot/src/org/usfirst/frc/team846/robot/TimeStats.java:22-24 | a call past the warm-up moves the reference avg and sq exactly by the code's two update lines |
| `JavaTimeStats.ReportExtremes` | JSampleRobot/src/org/usfirst/frc/team846/robot/TimeStats.java:20-27 | the extremes a reporting call prints are the old min and max updated by its duration, i.e. those of the window since the last report extended by it |
| `JavaTimeStats.ReportingStep` | JSampleRobot/src/org/usfirst/frc/team846/robot/TimeStats.java:26-29 | the printed max, min, avg and variance are those of the window extended by the call's duration and of all included samples |
| `JavaTimeStats.IncludedStep` | JSampleRobot/src/org/usfirst/frc/team846/robot/TimeStats.java:22-24 | the code's avg and sq updates compute the zero-seeded mean and the squared deviations of the extended sample list |
| `JavaTimeStats.WindowStep` | JSampleRobot/src/org/usfirst/frc/team846/robot/TimeStats.java:20-30 | a reporting call empties the window; any other call past the warm-up appends its duration; during the warm-up the window stays empty |
| `JavaTimeStats.WindowStartStep` | JSampleRobot/src/org/usfirst/frc/team846/robot/TimeStats.java:26-30 | the closed-form window start moves to n + 1 on a report or during warm-up, and stays put otherwise |
| `JavaTimeStats.WindowSinceLastReport` | JSampleRobot/src/org/usfirst/frc/team846/robot/TimeStats.java:26-30 | during the warm-up the window is empty; afterwards it starts at the first included call if nothing has reported yet, or just after the last reporting call, and no call inside it reported |
| `JavaTimeStats.ExtremesOfWindow` | JSampleRobot/src/org/usfirst/frc/team846/robot/TimeStats.java:20-21 | min and max bound every duration of the window and stay within the 1E6 and 0 sentinels; they are attained in the window unless they are the sentinels; a nonempty window has min <= max |
| `JavaTimeStats.ZeroSeededAverage` | JSampleRobot/src/org/usfirst/frc/team846/robot/TimeStats.java:22-24 | avg is never reset: after k included samples avg * (k + 1) is their total |
| `JavaTimeStats.SqNonnegative` | JSampleRobot/src/org/usfirst/frc/team846/robot/TimeStats.java:24-28 | sq >= 0, as the square root at line 28 needs |
| `JavaTimeStats.ReportsAtReportPositions` | JSampleRobot/src/org/usfirst/frc/team846/robot/TimeStats.java:19-29 | every report comes from a call with count > initcount and count % logcount == 0, and carries the reference report of the history up to that call |
| `JavaTimeStats.ReportAfterSound` | JSampleRobot/src/org/usfirst/frc/team846/robot/TimeStats.java:26-28 | a printed variance is sq over a divisor of at least 1, never negative, and the printed min <= max |
| `Handler.Handler.constructor` | CSampleRobot/src/Robot.cpp:131-133 | i = 0, the timer is not running, and the fresh collector reports every 200 calls after 200 warm-up calls |
| `Handler.Handler.Call` | CSampleRobot/src/Robot.cpp:130-148 | the first call (i == 0) appends the setup events and starts the timer at `now`; every call records `now` minus the start time into the collector once and increments i |
| `Handler.TraceAppend` | CSampleRobot/src/Robot.cpp:135-147 | one more call appends the setup only if it is the first, then exactly one record |
| `Handler.TraceAt` | CSampleRobot/src/Robot.cpp:135-147 | after n >= 1 calls the trace is the four setup events followed by one record per call |
| `Handler.TimerStartedOnce` | CSampleRobot/src/Robot.cpp:135-145 | over any number of calls the timer is started exactly once, and never before the first call |
| `Handler.TimerStartedBeforeRecords` | CSampleRobot/src/Robot.cpp:135-146 | the timer start precedes every record, and every event after the setup is a record |
| `Handler.OneRecordPerCall` | CSampleRobot/src/Robot.cpp:146-147 | the values recorded are, in order, one elapsed time per call |
| `Handler.ElapsedAt` | CSampleRobot/src/Robot.cpp:146 | call k records its clock time minus that of the first call |

## Left out

- Integer widths: the model's counters are unbounded. The C++ `count` is an `unsigned long`, which is 32 bits on the 32-bit ARM controller this WPILib program targets, so it wraps at 2^32 (about 248 days of 5 ms ticks); the model does not wrap it. The Java `count` is a `long` and would overflow at 2^63, also not modelled. The handler's `int i` goes past `INT_MAX` by signed overflow, which is undefined behaviour in C++; the model's `i` is a natural that keeps growing.
- Constructor arguments: both constructors take `int`s, while the model takes naturals, with `logcount > 0`. `count % 0` is undefined in C++ and throws `ArithmeticException` in Java. In C++ a negative argument converts to a huge `unsigned long`. In Java a negative `i` stays a negative `long`: then `count > initcount` holds from the first call, and the first weight `count - initcount` is `-i`. A negative `l` in Java reports at the multiples of its absolute value, since Java's `%` takes the sign of the dividend. The model's naturals exclude all of these cases.
- Floating point: values are `real`. IEEE-754 rounding of the average, the `sq` update and the divisions is not modelled.
- `Math.sqrt`: the Java report carries the variance `sq / (count - initcount)`, not its square root.
- Printing: a `cout` or `System.out.println` line becomes a tuple in the ghost `reports` list; the text format is not modelled.
- The pthread calls (`pthread_setname_np`, `pthread_getschedparam`, `pthread_setschedparam`) become events; their effect on scheduling, the values read and the error results are not modelled.
- The timer: clock readings arrive as the parameter of `Handler.Handler.Call`. `Start` and `Get` on the first call read the same instant, so the first recorded elapsed time is 0.
- The `Notifier` that drives `handler` every 5 ms, the busy loop and the thread setup in `Disabled`, and calls from several threads are not modelled.
- The robot demo around the collector (drive, joystick, dashboard chooser, autonomous and operator modes) is not modelled.
- JavaTimeStats.TimeStats.Reset: its contract says exactly which fields change but does not keep `Valid()`. `Reset` is public, and a call from outside `Record` breaks the link between `min`/`max` and the report window; the model only calls it from the constructor and from `Record`.
