/**
 The Java `TimeStats` collector: the same warm-up gating, running extremes and
 zero-seeded mean as the C++ one, plus Welford's `sq` accumulator for a
 standard deviation, and a `Reset()` after every report that restarts the
 minimum and maximum, so those two range over a report window while `avg` and
 `sq` cover every included duration since the warm-up.
 */
module JavaTimeStats {
  import opened Jitter

  /**
   One line "Max ..; Min ..; Avg ..; Count ..; stDev ..". The standard
   deviation is printed as the square root of `variance`, which is
   sq / (count - initcount).
   */
  datatype Report = Report(max: real, min: real, avg: real, count: nat, variance: real)

  // ---------------------------------------------------------------------
  // Report windows

  /**
   The index of the first duration in the window after `n` calls: one past
   the last call that reported, or the first included call when none has
   reported, and never past `n`. The last multiple of `every` below `n` is
   ((n - 1) / every) * every; it was a report iff it exceeds the warm-up.
   */
  function WindowStart(n: nat, warmup: nat, every: nat): (r: nat)
    requires every > 0
    ensures r <= n
    ensures n <= warmup + 1 ==> r == n
  {
    if n == 0 then 0
    else
      var m := (n - 1) / every * every;
      LastMultipleBelow(n - 1, every, m);
      if m > warmup then m + 1
      else if n <= warmup + 1 then n
      else warmup + 1
  }

  /** The durations `min` and `max` range over after the calls of `h`: those since the last report. */
  function Window(h: seq<real>, warmup: nat, every: nat): seq<real>
    requires every > 0
  {
    Durations(h)[WindowStart(|h|, warmup, every)..]
  }

  /** The window a reporting call prints, just before its `Reset`: the one its update extended. */
  function ReportWindow(h: seq<real>, warmup: nat, every: nat): seq<real>
    requires every > 0 && h != []
  {
    Durations(h)[WindowStart(|h| - 1, warmup, every)..]
  }

  /** The square of the printed standard deviation: sq / (count - initcount), with a divisor of at least 1. */
  function Variance(sq: real, n: nat): real
    requires n >= 1
  {
    sq / n as real
  }

  /** The report the last call of a (reporting) history prints. */
  function ReportAfter(h: seq<real>, warmup: nat, every: nat): Report
    requires every > 0 && |h| > warmup + 1
  {
    var s := Included(h, warmup);
    var w := ReportWindow(h, warmup, every);
    Report(MaxOf(MaxSentinel, w), MinOf(MinSentinel, w), ZeroSeededMean(s), |h| - 1,
           Variance(SquaredDeviations([0.0] + s, ZeroSeededMean(s)), |s|))
  }

  /** Everything printed over a history: one report per call whose pre-increment count is a report position. */
  function ReportsOf(h: seq<real>, warmup: nat, every: nat): seq<Report>
    requires every > 0
    decreases |h|
  {
    if h == [] then []
    else ReportsOf(h[..|h| - 1], warmup, every)
         + (if IsReportAt(|h| - 1, warmup, every) then [ReportAfter(h, warmup, every)] else [])
  }

  // ---------------------------------------------------------------------
  // The collector


  /** The values of the collector's fields, including the ghost list of reports. */
  datatype State = State(min: real, max: real, avg: real, sq: real, count: nat, prev: real,
                         reports: seq<Report>)

  /** The fields as the constructor leaves them. */
  const Initial := State(MinSentinel, MaxSentinel, 0.0, 0.0, 0, 0.0, [])

  /**
   One call of `Record` at timestamp `t`, as the source computes it: past the
   warm-up the duration moves the extremes, the mean and `sq`, and on a
   report position the report is printed and `min` and `max` are reset.
   */
  function Step(s: State, t: real, warmup: nat, every: nat): State
    requires every > 0
  {
    var d := t - s.prev;
    if s.count > warmup then
      var max := Max(s.max, d);
      var min := Min(s.min, d);
      var avgNew := MeanStep(s.avg, s.count - warmup, d);
      var sq := SqStep(s.sq, s.avg, avgNew, d);
      if s.count % every == 0 then
        var r := Report(max, min, avgNew, s.count, Variance(sq, s.count - warmup));
        State(MinSentinel, MaxSentinel, avgNew, sq, s.count + 1, t, s.reports + [r])
      else
        State(min, max, avgNew, sq, s.count + 1, t, s.reports)
    else
      State(s.min, s.max, s.avg, s.sq, s.count + 1, t, s.reports)
  }

  /** The fields after calling `Record` with every timestamp of `h` in turn on a fresh collector. */
  function Run(h: seq<real>, warmup: nat, every: nat): State
    requires every > 0
    decreases |h|
  {
    if h == [] then Initial else Step(Run(h[..|h| - 1], warmup, every), h[|h| - 1], warmup, every)
  }

  class TimeStats {
    var min: real
    var max: real
    var avg: real
    var sq: real
    var count: nat
    var logcount: nat
    var initcount: nat
    var prev: real

    ghost var history: seq<real>
    ghost var reports: seq<Report>

    /** The fields as a value. */
    ghost function Fields(): State
      reads this
    {
      State(min, max, avg, sq, count, prev, reports)
    }

    /**
     The fields are those a fresh collector reaches over `history`; by
     `RunStatistics` the extremes are then those of the current window, `avg`
     the zero-seeded mean and `sq` the squared deviations of all included
     durations, and `reports` is `ReportsOf(history, ...)`.
     */
    ghost predicate Valid()
      reads this
    {
      logcount > 0 && Fields() == Run(history, initcount, logcount)
    }

    constructor (l: nat, i: nat)
      requires l > 0
      ensures Valid()
      ensures logcount == l && initcount == i
      ensures count == 0 && prev == 0.0 && avg == 0.0 && sq == 0.0
      ensures min == MinSentinel && max == MaxSentinel
      ensures history == [] && reports == []
    {
      new;
      Reset();
      logcount := l;
      initcount := i;
      count := 0;
      prev := 0.0;
      avg := 0.0;
      sq := 0.0;
      history := [];
      reports := [];
    }

    /** Restarts the window: only `min` and `max` change. */
    method Reset()
      modifies this
      ensures min == MinSentinel && max == MaxSentinel
      ensures avg == old(avg) && sq == old(sq) && count == old(count) && prev == old(prev)
      ensures logcount == old(logcount) && initcount == old(initcount)
      ensures history == old(history) && reports == old(reports)
    {
      min := 1000000.0;
      max := 0.0;
    }

    method Record(timer: real)
      requires Valid()
      modifies this
      ensures Valid()
      ensures history == old(history) + [timer]
      ensures logcount == old(logcount) && initcount == old(initcount)
      ensures Fields() == Step(old(Fields()), timer, initcount, logcount)
    {
      ghost var next := Step(Fields(), timer, initcount, logcount);
      var duration := timer - prev;
      if count > initcount {
        if duration > max { max := duration; }
        if duration < min { min := duration; }
        // count - initcount cannot underflow here
        var weight: nat := count - initcount;
        var avgNew := MeanStep(avg, weight, duration);
        sq := SqStep(sq, avg, avgNew, duration);
        avg := avgNew;
        assert avg == next.avg && sq == next.sq;
        if count % logcount == 0 {
          // the standard deviation's divisor count - initcount is at least 1
          reports := reports + [Report(max, min, avg, count, Variance(sq, weight))];
          assert reports == next.reports;
          Reset();
        } else {
          assert max == next.max && min == next.min;
        }
      }
      prev := timer;
      count := count + 1;
      history := history + [timer];
      assert history[..|history| - 1] == old(history);
      assert Fields() == next;
    }
  }

  // ---------------------------------------------------------------------
  // What the fields mean

  /**
   The reference state after a history: the count is its length and `prev`
   its last timestamp; `min` and `max` are the extremes of the current window
   against the sentinels; `avg` is the zero-seeded mean of every included
   duration (it is never reset) and `sq` the squared deviations of the list
   0, d1, ..., dk from it; and the reports are `ReportsOf` the history.
   */
  function Expected(h: seq<real>, warmup: nat, every: nat): State
    requires every > 0
  {
    var s := Included(h, warmup);
    var w := Window(h, warmup, every);
    State(MinOf(MinSentinel, w), MaxOf(MaxSentinel, w), ZeroSeededMean(s),
          SquaredDeviations([0.0] + s, ZeroSeededMean(s)), |h|, Last(h), ReportsOf(h, warmup, every))
  }

  /** One call takes the reference state of a history to that of the extended history. */
  lemma StepExpected(h: seq<real>, t: real, warmup: nat, every: nat)
    requires every > 0
    ensures Step(Expected(h, warmup, every), t, warmup, every) == Expected(h + [t], warmup, every)
  {
    if |h| <= warmup {
      WarmupStepExpected(h, t, warmup, every);
    } else if IsReportAt(|h|, warmup, every) {
      ReportingStepExpected(h, t, warmup, every);
    } else {
      IncludedStepExpected(h, t, warmup, every);
    }
  }

  lemma WarmupStepExpected(h: seq<real>, t: real, warmup: nat, every: nat)
    requires every > 0 && |h| <= warmup
    ensures Step(Expected(h, warmup, every), t, warmup, every) == Expected(h + [t], warmup, every)
  {
    WindowStep(h, t, warmup, every);
    ReportsStep(h, t, warmup, every);
    IncludedAppend(h, t, warmup);
  }

  lemma ReportingStepExpected(h: seq<real>, t: real, warmup: nat, every: nat)
    requires every > 0 && IsReportAt(|h|, warmup, every)
    ensures Step(Expected(h, warmup, every), t, warmup, every) == Expected(h + [t], warmup, every)
  {
    WindowStep(h, t, warmup, every);
    ReportsStep(h, t, warmup, every);
    IncludedStep(h, t, warmup);
    ReportingStep(h, t, warmup, every);
  }

  lemma IncludedStepExpected(h: seq<real>, t: real, warmup: nat, every: nat)
    requires every > 0 && |h| > warmup && !IsReportAt(|h|, warmup, every)
    ensures Step(Expected(h, warmup, every), t, warmup, every) == Expected(h + [t], warmup, every)
  {
    var e := Expected(h, warmup, every);
    var d := t - Last(h);
    IncludedExtremes(h, t, warmup, every);
    IncludedMoments(h, t, warmup, every);
    ReportsStep(h, t, warmup, every);
    assert Step(e, t, warmup, every)
        == State(Min(e.min, d), Max(e.max, d), MeanStep(e.avg, |h| - warmup, d),
                 SqStep(e.sq, e.avg, MeanStep(e.avg, |h| - warmup, d), d), |h| + 1, t, e.reports);
  }

  /** A non-reporting call past the warm-up moves `min` and `max` by its duration. */
  lemma IncludedExtremes(h: seq<real>, t: real, warmup: nat, every: nat)
    requires every > 0 && |h| > warmup && !IsReportAt(|h|, warmup, every)
    ensures Expected(h + [t], warmup, every).min == Min(Expected(h, warmup, every).min, t - Last(h))
    ensures Expected(h + [t], warmup, every).max == Max(Expected(h, warmup, every).max, t - Last(h))
  {
    WindowStep(h, t, warmup, every);
    MaxOfAppend(MaxSentinel, Window(h, warmup, every), t - Last(h));
    MinOfAppend(MinSentinel, Window(h, warmup, every), t - Last(h));
  }

  /** A call past the warm-up moves `avg` and `sq` by the incremental updates. */
  lemma IncludedMoments(h: seq<real>, t: real, warmup: nat, every: nat)
    requires every > 0 && |h| > warmup
    ensures var e, e' := Expected(h, warmup, every), Expected(h + [t], warmup, every);
            && e'.avg == MeanStep(e.avg, |h| - warmup, t - Last(h))
            && e'.sq == SqStep(e.sq, e.avg, e'.avg, t - Last(h))
  {
    IncludedStep(h, t, warmup);
  }

  /** A reporting call prints the reference report of the extended history. */
  lemma ReportingStep(h: seq<real>, t: real, warmup: nat, every: nat)
    requires every > 0 && IsReportAt(|h|, warmup, every)
    ensures var e := Expected(h, warmup, every);
            var d := t - e.prev;
            var avgNew := MeanStep(e.avg, e.count - warmup, d);
            Report(Max(e.max, d), Min(e.min, d), avgNew, e.count,
                   Variance(SqStep(e.sq, e.avg, avgNew, d), e.count - warmup))
            == ReportAfter(h + [t], warmup, every)
  {
    ReportExtremes(h, t, warmup, every);
    IncludedMoments(h, t, warmup, every);
    ZeroSeededAverage(h + [t], warmup, every);
  }

  /** The extremes a call past the warm-up prints are those of the window extended by its duration. */
  lemma ReportExtremes(h: seq<real>, t: real, warmup: nat, every: nat)
    requires every > 0 && |h| > warmup
    ensures MaxOf(MaxSentinel, ReportWindow(h + [t], warmup, every)) == Max(Expected(h, warmup, every).max, t - Last(h))
    ensures MinOf(MinSentinel, ReportWindow(h + [t], warmup, every)) == Min(Expected(h, warmup, every).min, t - Last(h))
  {
    WindowStep(h, t, warmup, every);
    MaxOfAppend(MaxSentinel, Window(h, warmup, every), t - Last(h));
    MinOfAppend(MinSentinel, Window(h, warmup, every), t - Last(h));
  }

  /** What the fields mean: a collector that has recorded `h` is in the reference state of `h`. */
  lemma {:induction false} RunStatistics(h: seq<real>, warmup: nat, every: nat)
    requires every > 0
    ensures Run(h, warmup, every) == Expected(h, warmup, every)
    decreases |h|
  {
    if h == [] {
      assert Window(h, warmup, every) == [] && Included(h, warmup) == [];
      assert ZeroSeededMean([]) == 0.0;
      assert [0.0][..0] == [];
      assert SquaredDeviations([0.0], 0.0) == 0.0;
    } else {
      var p, t := h[..|h| - 1], h[|h| - 1];
      assert h == p + [t];
      RunStatistics(p, warmup, every);
      StepExpected(p, t, warmup, every);
    }
  }

  /** How one call past the warm-up moves the mean and the squared deviations of the included durations. */
  lemma IncludedStep(h: seq<real>, t: real, warmup: nat)
    requires |h| > warmup
    ensures ZeroSeededMean(Included(h + [t], warmup))
         == MeanStep(ZeroSeededMean(Included(h, warmup)), |h| - warmup, t - Last(h))
    ensures SquaredDeviations([0.0] + Included(h + [t], warmup), ZeroSeededMean(Included(h + [t], warmup)))
         == SqStep(SquaredDeviations([0.0] + Included(h, warmup), ZeroSeededMean(Included(h, warmup))),
                   ZeroSeededMean(Included(h, warmup)), ZeroSeededMean(Included(h + [t], warmup)), t - Last(h))
  {
    var s := Included(h, warmup);
    IncludedAppend(h, t, warmup);
    MeanUpdate(s, t - Last(h));
    ZeroSeededWelford(s, t - Last(h));
  }

  /**
   How one call moves the window: a reporting call empties it, a call past
   the warm-up otherwise appends its duration, and during the warm-up it
   stays empty. The reporting call prints the window extended by its duration.
   */
  lemma WindowStep(h: seq<real>, t: real, warmup: nat, every: nat)
    requires every > 0
    ensures Window(h + [t], warmup, every)
         == if |h| <= warmup || IsReportAt(|h|, warmup, every) then []
            else Window(h, warmup, every) + [t - Last(h)]
    ensures |h| <= warmup ==> Window(h, warmup, every) == []
    ensures |h| > warmup ==> ReportWindow(h + [t], warmup, every) == Window(h, warmup, every) + [t - Last(h)]
  {
    DurationsAppend(h, t);
    WindowStartStep(|h|, warmup, every);
    var d := t - Last(h);
    var r := WindowStart(|h|, warmup, every);
    assert Durations(h + [t])[r..] == Durations(h)[r..] + [d];
    if |h| <= warmup || IsReportAt(|h|, warmup, every) {
      assert WindowStart(|h| + 1, warmup, every) == |h| + 1;
      assert Window(h + [t], warmup, every) == [];
    } else {
      assert WindowStart(|h| + 1, warmup, every) == r;
    }
  }

  /** One call appends the report of a report position, and nothing otherwise. */
  lemma ReportsStep(h: seq<real>, t: real, warmup: nat, every: nat)
    requires every > 0
    ensures ReportsOf(h + [t], warmup, every)
         == ReportsOf(h, warmup, every)
            + (if IsReportAt(|h|, warmup, every) then [ReportAfter(h + [t], warmup, every)] else [])
  {
    assert (h + [t])[..|h|] == h;
  }

  // ---------------------------------------------------------------------
  // Properties of one call and of the reference state

  /**
   Every call advances `count` by one and sets `prev`; a warm-up call changes
   no statistic; a reporting call leaves `min` and `max` at the sentinels and
   appends one report, carrying the updated mean and `sq / (count - initcount)`;
   `avg` and `sq` are never reset.
   */
  lemma StepBookkeeping(s: State, t: real, warmup: nat, every: nat)
    requires every > 0
    ensures Step(s, t, warmup, every).count == s.count + 1
    ensures Step(s, t, warmup, every).prev == t
    ensures s.count <= warmup ==> Step(s, t, warmup, every) == s.(count := s.count + 1, prev := t)
    ensures IsReportAt(s.count, warmup, every) ==>
              var s' := Step(s, t, warmup, every);
              && s'.min == MinSentinel && s'.max == MaxSentinel
              && s'.reports == s.reports + [Report(Max(s.max, t - s.prev), Min(s.min, t - s.prev),
                                                   s'.avg, s.count, Variance(s'.sq, s.count - warmup))]
    ensures s.count > warmup ==>
              && Step(s, t, warmup, every).avg == MeanStep(s.avg, s.count - warmup, t - s.prev)
              && Step(s, t, warmup, every).sq == SqStep(s.sq, s.avg, Step(s, t, warmup, every).avg, t - s.prev)
    ensures !IsReportAt(s.count, warmup, every) ==> Step(s, t, warmup, every).reports == s.reports
  {
  }

  /**
   `avg` is never reset: after k included samples, avg * (k + 1) is their
   total, whatever reports happened in between.
   */
  lemma ZeroSeededAverage(h: seq<real>, warmup: nat, every: nat)
    requires every > 0
    ensures |Included(h, warmup)| == if |h| <= warmup + 1 then 0 else |h| - warmup - 1
    ensures Expected(h, warmup, every).avg * (|Included(h, warmup)| as real + 1.0) == Sum(Included(h, warmup))
  {
    MeanTimesCount(Included(h, warmup));
  }

  /**
   The window holds exactly the included durations since the last report:
   during the warm-up it is empty; afterwards it starts at the first included
   call when nothing has reported yet, or one past the last reporting call,
   and no call inside it reported.
   */
  lemma WindowSinceLastReport(n: nat, warmup: nat, every: nat)
    requires every > 0
    ensures n <= warmup + 1 ==> WindowStart(n, warmup, every) == n
    ensures n > warmup + 1 ==>
              var r := WindowStart(n, warmup, every);
              && warmup + 1 <= r
              && (r == warmup + 1 || IsReportAt(r - 1, warmup, every))
              && forall j: nat :: r <= j < n ==> !IsReportAt(j, warmup, every)
  {
    if n > 0 {
      var m := (n - 1) / every * every;
      LastMultipleBelow(n - 1, every, m);
      if m > warmup {
        assert m % every == 0 by {
          DivUnique(m, every, (n - 1) / every, 0);
          DivMod(m, every);
        }
      }
    }
  }

  /**
   `sq` is a sum of squares, so never negative, and neither is the variance
   any report prints: the square root the source takes of it is defined.
   */
  lemma SqNonnegative(h: seq<real>, warmup: nat, every: nat)
    requires every > 0
    ensures Expected(h, warmup, every).sq >= 0.0
  {
    SquaredDeviationsNonnegative([0.0] + Included(h, warmup), ZeroSeededMean(Included(h, warmup)));
  }

  /** `min` and `max` are the extremes of the window: they bound it, and are attained in it unless it is empty. */
  lemma ExtremesOfWindow(h: seq<real>, warmup: nat, every: nat)
    requires every > 0
    ensures var e, w := Expected(h, warmup, every), Window(h, warmup, every);
            && e.min <= MinSentinel && MaxSentinel <= e.max
            && (forall i :: 0 <= i < |w| ==> e.min <= w[i] <= e.max)
            && (w == [] ==> e.min == MinSentinel && e.max == MaxSentinel)
            && (w != [] ==> e.min <= e.max)
            && (e.min == MinSentinel || exists i :: 0 <= i < |w| && w[i] == e.min)
            && (e.max == MaxSentinel || exists i :: 0 <= i < |w| && w[i] == e.max)
  {
    var w := Window(h, warmup, every);
    MinOfIsMinimum(MinSentinel, w);
    MaxOfIsMaximum(MaxSentinel, w);
    if w != [] {
      MinAtMostMax(w);
    }
  }

  /** `r` is the report call `r.count` of `h` printed: a report position, with the reference report of the history up to it. */
  ghost predicate PrintedAt(h: seq<real>, r: Report, warmup: nat, every: nat)
    requires every > 0
  {
    && r.count < |h| && IsReportAt(r.count, warmup, every)
    && r == ReportAfter(h[..r.count + 1], warmup, every)
  }

  /**
   Every report over a history comes from a report position below its
   length and carries the reference report of the history up to that call;
   its variance is the squared deviations of 0, d1, ..., dk over k >= 1,
   hence not negative, and its minimum is at most its maximum.
   */
  lemma {:induction false} ReportsAtReportPositions(h: seq<real>, warmup: nat, every: nat)
    requires every > 0
    ensures forall k :: 0 <= k < |ReportsOf(h, warmup, every)| ==> PrintedAt(h, ReportsOf(h, warmup, every)[k], warmup, every)
    decreases |h|
  {
    if h != [] {
      var p := h[..|h| - 1];
      ReportsAtReportPositions(p, warmup, every);
      var rp := ReportsOf(p, warmup, every);
      var r := ReportsOf(h, warmup, every);
      assert r == rp + (if IsReportAt(|p|, warmup, every) then [ReportAfter(h, warmup, every)] else []);
      forall k | 0 <= k < |r|
        ensures PrintedAt(h, r[k], warmup, every)
      {
        if k < |rp| {
          assert r[k] == rp[k];
          PrintedAtExtends(p, h, rp[k], warmup, every);
        } else {
          assert h[..|h|] == h;
        }
      }
    }
  }

  /** A report printed within a prefix of a history is printed by the history. */
  lemma PrintedAtExtends(p: seq<real>, h: seq<real>, r: Report, warmup: nat, every: nat)
    requires every > 0 && p <= h && PrintedAt(p, r, warmup, every)
    ensures PrintedAt(h, r, warmup, every)
  {
    assert h[..r.count + 1] == p[..r.count + 1];
  }

  /** The printed variance is never negative and the printed minimum is at most the printed maximum. */
  lemma ReportAfterSound(h: seq<real>, warmup: nat, every: nat)
    requires every > 0 && |h| > warmup + 1
    ensures ReportAfter(h, warmup, every).variance >= 0.0
    ensures ReportAfter(h, warmup, every).min <= ReportAfter(h, warmup, every).max
  {
    var s := Included(h, warmup);
    SquaredDeviationsNonnegative([0.0] + s, ZeroSeededMean(s));
    VarianceNonnegative(SquaredDeviations([0.0] + s, ZeroSeededMean(s)), |s|);
    MinAtMostMax(ReportWindow(h, warmup, every));
  }

  lemma VarianceNonnegative(sq: real, n: nat)
    requires sq >= 0.0 && n >= 1
    ensures Variance(sq, n) >= 0.0
  {
  }

  // ---------------------------------------------------------------------
  // Window arithmetic

  /** A multiple of `every` that is at most `a` is at most the last multiple `(a / every) * every`, which is at most `a`. */
  lemma LastMultipleBelow(a: nat, every: nat, m: nat)
    requires every > 0 && m == a / every * every
    ensures m <= a && a - m < every
    ensures forall j: nat :: j <= a && j % every == 0 ==> j <= m
  {
    DivMod(a, every);
    forall j: nat | j <= a && j % every == 0 ensures j <= m {
      DivMod(j, every);
      var qj, qa := j / every, a / every;
      assert j == qj * every && a == qa * every + a % every;
      assert (qa + 1) * every == qa * every + every;
      if qj > qa {
        MulMonotone(qa + 1, qj, every);
      } else {
        MulMonotone(qj, qa, every);
      }
    }
  }

  lemma DivMod(a: nat, k: nat)
    requires k > 0
    ensures a == a / k * k + a % k && 0 <= a % k < k
  {
  }

  lemma MulMonotone(x: nat, y: nat, k: nat)
    requires x <= y
    ensures x * k <= y * k
  {
  }

  /** Integer division is determined by the quotient-remainder decomposition. */
  lemma DivUnique(a: nat, k: nat, q: nat, r: nat)
    requires k > 0 && r < k && a == q * k + r
    ensures a / k == q
  {
    DivMod(a, k);
    var q' := a / k;
    if q' > q {
      MulMonotone(q + 1, q', k);
    } else if q' < q {
      MulMonotone(q' + 1, q, k);
    }
  }

  /** The window start after one more call. */
  lemma WindowStartStep(n: nat, warmup: nat, every: nat)
    requires every > 0
    ensures WindowStart(n + 1, warmup, every)
         == if n <= warmup || IsReportAt(n, warmup, every) then n + 1 else WindowStart(n, warmup, every)
  {
    var q := n / every;
    DivMod(n, every);
    if n > warmup && n % every != 0 {
      DivUnique(n - 1, every, q, n % every - 1);
    } else if n <= warmup {
      LastMultipleBelow(n, every, q * every);
    }
  }
}
