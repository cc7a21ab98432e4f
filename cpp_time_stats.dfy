/**
 The C++ `TimeStats` collector of the periodic-callback experiment: a running
 maximum, minimum and zero-seeded mean of the inter-arrival durations of the
 timestamps passed to `Record`, skipping the first calls as warm-up and
 reporting every `logcount` calls.

 The object keeps two ghost fields: `history`, every timestamp `Record` was
 given, and `reports`, every report written to standard output, as a
 (max, min, avg, count) record. `Valid()` ties every real field to a function
 of `history`, so the fields hold the statistics of the whole stream without
 retaining it.
 */
module CppTimeStats {
  import opened Jitter

  /** One line "max ..; min ..; avg ..; count .." of standard output. */
  datatype Report = Report(max: real, min: real, avg: real, count: nat)

  /** The report the last call of a (reporting) history prints: the statistics after its update. */
  ghost function ReportAfter(h: seq<real>, warmup: nat): Report
    requires h != []
  {
    var s := Included(h, warmup);
    Report(MaxOf(MaxSentinel, s), MinOf(MinSentinel, s), ZeroSeededMean(s), |h| - 1)
  }

  /** Everything printed over a history: one report per call whose pre-increment count is a report position. */
  ghost function ReportsOf(h: seq<real>, warmup: nat, every: nat): seq<Report>
    requires every > 0
    decreases |h|
  {
    if h == [] then []
    else ReportsOf(h[..|h| - 1], warmup, every)
         + (if IsReportAt(|h| - 1, warmup, every) then [ReportAfter(h, warmup)] else [])
  }

  /** The values of the collector's fields, including the ghost list of reports. */
  datatype State = State(max: real, min: real, avg: real, count: nat, prev: real, reports: seq<Report>)

  /** The fields as the constructor leaves them. */
  const Initial := State(MaxSentinel, MinSentinel, 0.0, 0, 0.0, [])

  /**
   One call of `Record` at timestamp `t`, as the source computes it: the
   duration since the previous timestamp moves the extremes and the
   incremental mean only once the pre-increment count is past the warm-up,
   and a report is printed at every multiple of `every` past the warm-up.
   */
  function Step(s: State, t: real, warmup: nat, every: nat): (s': State)
    requires every > 0
    ensures s'.count == s.count + 1 && s'.prev == t
    ensures s.count <= warmup ==> s'.max == s.max && s'.min == s.min && s'.avg == s.avg
    ensures s'.reports == s.reports
              + (if IsReportAt(s.count, warmup, every)
                 then [Report(s'.max, s'.min, s'.avg, s.count)] else [])
  {
    var d := t - s.prev;
    if s.count > warmup then
      var max := Max(s.max, d);
      var min := Min(s.min, d);
      var avg := MeanStep(s.avg, s.count - warmup, d);
      var reports := if s.count % every == 0 then s.reports + [Report(max, min, avg, s.count)] else s.reports;
      State(max, min, avg, s.count + 1, t, reports)
    else
      State(s.max, s.min, s.avg, s.count + 1, t, s.reports)
  }

  /** The fields after calling `Record` with every timestamp of `h` in turn on a fresh collector. */
  function Run(h: seq<real>, warmup: nat, every: nat): State
    requires every > 0
    decreases |h|
  {
    if h == [] then Initial else Step(Run(h[..|h| - 1], warmup, every), h[|h| - 1], warmup, every)
  }

  class TimeStats {
    var min: real
    var max: real
    var avg: real
    var count: nat
    var logcount: nat
    var initcount: nat
    var prev: real

    ghost var history: seq<real>
    ghost var reports: seq<Report>

    /** The fields as a value. */
    ghost function Fields(): State
      reads this
    {
      State(max, min, avg, count, prev, reports)
    }

    /**
     The fields are those a fresh collector reaches over `history`; by
     `RunStatistics` they are then the extremes and the zero-seeded mean of
     the included durations, and `reports` is `ReportsOf(history, ...)`.
     */
    ghost predicate Valid()
      reads this
    {
      logcount > 0 && Fields() == Run(history, initcount, logcount)
    }

    constructor (l: nat, i: nat)
      requires l > 0
      ensures Valid()
      ensures logcount == l && initcount == i
      ensures count == 0 && prev == 0.0 && avg == 0.0
      ensures min == MinSentinel && max == MaxSentinel
      ensures history == [] && reports == []
    {
      min := 1000000.0;
      max := 0.0;
      avg := 0.0;
      count := 0;
      prev := 0.0;
      logcount := l;
      initcount := i;
      history := [];
      reports := [];
    }

    method Record(timer: real)
      requires Valid()
      modifies this
      ensures Valid()
      ensures history == old(history) + [timer]
      ensures logcount == old(logcount) && initcount == old(initcount)
      ensures Fields() == Step(old(Fields()), timer, initcount, logcount)
      ensures count == old(count) + 1 && prev == timer
      ensures reports == old(reports)
                + (if IsReportAt(old(count), initcount, logcount)
                   then [Report(max, min, avg, old(count))] else [])
    {
      ghost var next := Step(Fields(), timer, initcount, logcount);
      var duration := timer - prev;
      if count > initcount {
        if duration > max { max := duration; }
        if duration < min { min := duration; }
        // count - initcount cannot underflow here
        var weight: nat := count - initcount;
        avg := MeanStep(avg, weight, duration);
        if count % logcount == 0 {
          reports := reports + [Report(max, min, avg, count)];
        }
      }
      prev := timer;
      count := count + 1;
      history := history + [timer];
      assert history[..|history| - 1] == old(history);
      assert Fields() == next;
    }
  }

  /**
   How one call changes every reference statistic: the new timestamp becomes
   the last one, and only a call past the warm-up moves the extremes and the
   mean (by the incremental formula, in the form the source evaluates it) and
   can add a report.
   */
  lemma RecordStep(h: seq<real>, t: real, warmup: nat, every: nat)
    requires every > 0
    ensures Last(h + [t]) == t
    ensures |h| <= warmup ==> Included(h + [t], warmup) == Included(h, warmup)
    ensures |h| > warmup ==>
              && MaxOf(MaxSentinel, Included(h + [t], warmup))
                 == Max(MaxOf(MaxSentinel, Included(h, warmup)), t - Last(h))
              && MinOf(MinSentinel, Included(h + [t], warmup))
                 == Min(MinOf(MinSentinel, Included(h, warmup)), t - Last(h))
    ensures ReportsOf(h + [t], warmup, every)
         == ReportsOf(h, warmup, every)
            + (if IsReportAt(|h|, warmup, every) then [ReportAfter(h + [t], warmup)] else [])
  {
    var s := Included(h, warmup);
    IncludedAppend(h, t, warmup);
    assert (h + [t])[..|h|] == h;
    if |h| > warmup {
      MaxOfAppend(MaxSentinel, s, t - Last(h));
      MinOfAppend(MinSentinel, s, t - Last(h));
    }
  }

  /**
   The mean update of a call past the warm-up, with the values the source
   computes it from: the old average, the weight count - initcount and the
   duration, yields the zero-seeded mean of the extended sample list.
   */
  lemma MeanStepExtends(h: seq<real>, t: real, warmup: nat, avg: real, weight: nat, duration: real)
    requires |h| > warmup && weight == |h| - warmup
    requires avg == ZeroSeededMean(Included(h, warmup)) && duration == t - Last(h)
    ensures MeanStep(avg, weight, duration) == ZeroSeededMean(Included(h + [t], warmup))
  {
    IncludedAppend(h, t, warmup);
    MeanUpdate(Included(h, warmup), duration);
  }

  /**
   What the fields mean: after any history, the count is its length, `prev`
   its last timestamp, `max`, `min` and `avg` the maximum, minimum and
   zero-seeded mean of the durations past the warm-up (the sentinels when
   there are none), and the reports are `ReportsOf` the history.
   */
  lemma {:induction false} RunStatistics(h: seq<real>, warmup: nat, every: nat)
    requires every > 0
    ensures Run(h, warmup, every).count == |h|
    ensures Run(h, warmup, every).prev == Last(h)
    ensures Run(h, warmup, every).max == MaxOf(MaxSentinel, Included(h, warmup))
    ensures Run(h, warmup, every).min == MinOf(MinSentinel, Included(h, warmup))
    ensures Run(h, warmup, every).avg == ZeroSeededMean(Included(h, warmup))
    ensures Run(h, warmup, every).reports == ReportsOf(h, warmup, every)
    decreases |h|
  {
    if h != [] {
      var p, t := h[..|h| - 1], h[|h| - 1];
      assert h == p + [t];
      RunStatistics(p, warmup, every);
      RecordStep(p, t, warmup, every);
      var s := Run(p, warmup, every);
      if |p| > warmup {
        MeanStepExtends(p, t, warmup, s.avg, |p| - warmup, t - s.prev);
      }
    }
  }

  /**
   The mean is zero-seeded: after k included samples, avg * (k + 1) is their
   total, and k counts the calls past the warm-up.
   */
  lemma ZeroSeededAverage(h: seq<real>, warmup: nat, every: nat)
    requires every > 0
    ensures |Included(h, warmup)| == if |h| <= warmup + 1 then 0 else |h| - warmup - 1
    ensures Run(h, warmup, every).avg * (|Included(h, warmup)| as real + 1.0) == Sum(Included(h, warmup))
  {
    RunStatistics(h, warmup, every);
    MeanTimesCount(Included(h, warmup));
  }

  /** Once a sample has been included, the running minimum is at most the running maximum. */
  lemma ExtremesOrdered(h: seq<real>, warmup: nat, every: nat)
    requires every > 0 && |h| > warmup + 1
    ensures Run(h, warmup, every).min <= Run(h, warmup, every).max
  {
    RunStatistics(h, warmup, every);
    MinAtMostMax(Included(h, warmup));
  }

  // ---------------------------------------------------------------------
  // Properties of the reference definitions

  /** `r` is the report call `r.count` of `h` printed: a report position, with the statistics of the history up to it. */
  ghost predicate PrintedAt(h: seq<real>, r: Report, warmup: nat, every: nat)
    requires every > 0
  {
    && r.count < |h| && IsReportAt(r.count, warmup, every)
    && r == ReportAfter(h[..r.count + 1], warmup)
  }

  /**
   Every report over a history comes from a report position below its
   length and carries the statistics of the history up to and including that
   call. In particular nothing is reported while the pre-increment count is
   at most the warm-up.
   */
  lemma {:induction false} ReportsAtReportPositions(h: seq<real>, warmup: nat, every: nat)
    requires every > 0
    ensures forall k :: 0 <= k < |ReportsOf(h, warmup, every)| ==> PrintedAt(h, ReportsOf(h, warmup, every)[k], warmup, every)
    decreases |h|
  {
    if h != [] {
      var p := h[..|h| - 1];
      ReportsAtReportPositions(p, warmup, every);
      var rp := ReportsOf(p, warmup, every);
      var r := ReportsOf(h, warmup, every);
      assert r == rp + (if IsReportAt(|p|, warmup, every) then [ReportAfter(h, warmup)] else []);
      forall k | 0 <= k < |r|
        ensures PrintedAt(h, r[k], warmup, every)
      {
        if k < |rp| {
          assert r[k] == rp[k];
          PrintedAtExtends(p, h, rp[k], warmup, every);
        } else {
          assert h[..|h|] == h;
        }
      }
    }
  }

  /** A report printed within a prefix of a history is printed by the history. */
  lemma PrintedAtExtends(p: seq<real>, h: seq<real>, r: Report, warmup: nat, every: nat)
    requires every > 0 && p <= h && PrintedAt(p, r, warmup, every)
    ensures PrintedAt(h, r, warmup, every)
  {
    assert h[..r.count + 1] == p[..r.count + 1];
  }


  /** The reports come in the order of the calls that printed them. */
  lemma {:induction false} ReportsInCallOrder(h: seq<real>, warmup: nat, every: nat)
    requires every > 0
    ensures forall k, k' :: 0 <= k < k' < |ReportsOf(h, warmup, every)| ==>
              ReportsOf(h, warmup, every)[k].count < ReportsOf(h, warmup, every)[k'].count
    decreases |h|
  {
    if h != [] {
      var p := h[..|h| - 1];
      ReportsInCallOrder(p, warmup, every);
      ReportsAtReportPositions(p, warmup, every);
      var rp := ReportsOf(p, warmup, every);
      var r := ReportsOf(h, warmup, every);
      assert r[..|rp|] == rp;
    }
  }

  /** Every report position below the length of a history prints a report. */
  lemma {:induction false} EveryReportPositionReports(h: seq<real>, warmup: nat, every: nat, j: nat)
    requires every > 0 && j < |h| && IsReportAt(j, warmup, every)
    ensures exists k :: 0 <= k < |ReportsOf(h, warmup, every)| && ReportsOf(h, warmup, every)[k].count == j
    decreases |h|
  {
    var p := h[..|h| - 1];
    var rp := ReportsOf(p, warmup, every);
    var r := ReportsOf(h, warmup, every);
    assert r[..|rp|] == rp;
    if j < |p| {
      EveryReportPositionReports(p, warmup, every, j);
      var k :| 0 <= k < |rp| && rp[k].count == j;
      assert r[k] == rp[k];
    } else {
      assert r[|r| - 1].count == j;
    }
  }

  /** Every report carries at least one sample, so its minimum is at most its maximum. */
  lemma ReportedMinAtMostMax(h: seq<real>, warmup: nat, every: nat, k: nat)
    requires every > 0 && k < |ReportsOf(h, warmup, every)|
    ensures ReportsOf(h, warmup, every)[k].min <= ReportsOf(h, warmup, every)[k].max
  {
    ReportsAtReportPositions(h, warmup, every);
    var r := ReportsOf(h, warmup, every)[k];
    assert |Included(h[..r.count + 1], warmup)| == r.count - warmup;
    MinAtMostMax(Included(h[..r.count + 1], warmup));
  }

  /**
   A perfectly regular timer with period p (timestamps 0, p, 2p, ...), within
   the sentinels: the report after such a history shows p as both extremes
   and, because of the zero seed, a mean of k * p / (k + 1) over k samples.
   */
  lemma EvenlySpacedReport(h: seq<real>, p: real, warmup: nat, k: nat)
    requires forall j :: 0 <= j < |h| ==> h[j] == j as real * p
    requires k > 0 && |h| == warmup + 1 + k && 0.0 < p <= MinSentinel
    ensures ReportAfter(h, warmup) == Report(p, p, k as real * p / (k as real + 1.0), |h| - 1)
  {
    EvenlySpacedDurations(h, p, warmup);
    ZeroSeededMeanBelowMin(Included(h, warmup), p);
  }

  /**
   The configuration the periodic handler uses, reporting every 200 calls
   after 200 warm-up calls: 401 regular ticks print exactly one report, at
   pre-increment count 400, over the 200 durations of calls 201 to 400.
   */
  lemma HandlerConfigurationFirstReport(h: seq<real>, p: real)
    requires |h| == 401 && 0.0 < p <= MinSentinel
    requires forall j :: 0 <= j < |h| ==> h[j] == j as real * p
    ensures ReportsOf(h, 200, 200) == [Report(p, p, 200.0 * p / 201.0, 400)]
  {
    EvenlySpacedReport(h, p, 200, 200);
    assert h[..401] == h;
    assert ReportAfter(h[..401], 200) == Report(p, p, 200.0 * p / 201.0, 400);
    forall j: nat | j < |h| && IsReportAt(j, 200, 200) ensures j == 400 {
      OnlyReportPositionOfFirst401(j);
    }
    ReportsOfSinglePosition(h, 200, 200, 400);
    assert ReportsOf(h, 200, 200) == [ReportAfter(h[..401], 200)];
  }

  /** A history with no report position below its length prints nothing. */
  lemma {:induction false} ReportsOfNoPosition(h: seq<real>, warmup: nat, every: nat)
    requires every > 0
    requires forall j: nat :: j < |h| ==> !IsReportAt(j, warmup, every)
    ensures ReportsOf(h, warmup, every) == []
    decreases |h|
  {
    if h != [] {
      ReportsOfNoPosition(h[..|h| - 1], warmup, every);
    }
  }

  /** A history with a single report position prints exactly the one report of that call. */
  lemma {:induction false} ReportsOfSinglePosition(h: seq<real>, warmup: nat, every: nat, j0: nat)
    requires every > 0 && j0 < |h| && IsReportAt(j0, warmup, every)
    requires forall j: nat :: j < |h| && IsReportAt(j, warmup, every) ==> j == j0
    ensures ReportsOf(h, warmup, every) == [ReportAfter(h[..j0 + 1], warmup)]
    decreases |h|
  {
    var p := h[..|h| - 1];
    if j0 == |p| {
      ReportsOfNoPosition(p, warmup, every);
      assert h[..j0 + 1] == h;
    } else {
      ReportsOfSinglePosition(p, warmup, every, j0);
      assert p[..j0 + 1] == h[..j0 + 1];
    }
  }

  /** Among the first 401 calls, the only report position of the 200/200 configuration is 400. */
  lemma OnlyReportPositionOfFirst401(j: nat)
    requires j < 401 && IsReportAt(j, 200, 200)
    ensures j == 400
  {
    var q := j / 200;
    assert j == 200 * q;
  }
}
