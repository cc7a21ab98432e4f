/**
 The timestamp-stream vocabulary shared by both `TimeStats` collectors: the
 inter-arrival durations of a history of `Record` timestamps, which of them
 survive the warm-up, the sentinels the running minimum and maximum start
 from, and the statistics (extremes, zero-seeded mean, squared deviations)
 the collectors are specified against.
 */
module Jitter {

  /** The value the running minimum starts from (and is reset to). */
  const MinSentinel: real := 1000000.0
  /** The value the running maximum starts from (and is reset to). */
  const MaxSentinel: real := 0.0

  function Max(a: real, b: real): real { if b > a then b else a }
  function Min(a: real, b: real): real { if b < a then b else a }

  /** The largest of `base` and the elements of `s`. */
  function MaxOf(base: real, s: seq<real>): real
    decreases |s|
  {
    if s == [] then base else Max(MaxOf(base, s[..|s| - 1]), s[|s| - 1])
  }

  /** The smallest of `base` and the elements of `s`. */
  function MinOf(base: real, s: seq<real>): real
    decreases |s|
  {
    if s == [] then base else Min(MinOf(base, s[..|s| - 1]), s[|s| - 1])
  }

  function Sum(s: seq<real>): real
    decreases |s|
  {
    if s == [] then 0.0 else Sum(s[..|s| - 1]) + s[|s| - 1]
  }

  function SumOfSquares(s: seq<real>): real
    decreases |s|
  {
    if s == [] then 0.0 else SumOfSquares(s[..|s| - 1]) + s[|s| - 1] * s[|s| - 1]
  }

  /** The sum of the squared distances of the elements of `s` from `m`. */
  function SquaredDeviations(s: seq<real>, m: real): real
    decreases |s|
  {
    if s == [] then 0.0
    else SquaredDeviations(s[..|s| - 1], m) + (s[|s| - 1] - m) * (s[|s| - 1] - m)
  }

  /**
   The mean both collectors compute: the running average starts at 0 and the
   first included sample is averaged with weight 1 against it, so after k
   samples it is their total divided by k + 1, the arithmetic mean of the
   list 0, d1, ..., dk.
   */
  function ZeroSeededMean(s: seq<real>): real
  {
    Sum(s) / (|s| as real + 1.0)
  }

  /** The previous timestamp after a history of calls: the last one, or 0 before any call. */
  function Last(h: seq<real>): real
  {
    if h == [] then 0.0 else h[|h| - 1]
  }

  /**
   The duration each call computes: its timestamp minus the previous one,
   where the first call measures against 0 (see `DurationsAt`).
   */
  function Durations(h: seq<real>): (d: seq<real>)
    ensures |d| == |h|
    decreases |h|
  {
    if h == [] then [] else Durations(h[..|h| - 1]) + [h[|h| - 1] - Last(h[..|h| - 1])]
  }

  /** Call j runs with pre-increment count j; it contributes iff j > warmup. */
  function Included(h: seq<real>, warmup: nat): seq<real>
  {
    Durations(h)[if |h| <= warmup + 1 then |h| else warmup + 1..]
  }

  /** Whether the call with pre-increment count `j` emits a report. */
  predicate IsReportAt(j: nat, warmup: nat, every: nat)
    requires every > 0
  {
    j > warmup && j % every == 0
  }

  // ---------------------------------------------------------------------
  // Properties of the statistics

  lemma {:induction false} MaxOfIsMaximum(base: real, s: seq<real>)
    ensures base <= MaxOf(base, s)
    ensures forall i :: 0 <= i < |s| ==> s[i] <= MaxOf(base, s)
    ensures MaxOf(base, s) == base || exists i :: 0 <= i < |s| && s[i] == MaxOf(base, s)
    decreases |s|
  {
    if s != [] {
      var p := s[..|s| - 1];
      MaxOfIsMaximum(base, p);
      assert forall i :: 0 <= i < |p| ==> s[i] == p[i];
      if MaxOf(base, s) != base && MaxOf(base, s) != s[|s| - 1] {
        var i :| 0 <= i < |p| && p[i] == MaxOf(base, p);
        assert s[i] == MaxOf(base, s);
      }
    }
  }

  lemma {:induction false} MinOfIsMinimum(base: real, s: seq<real>)
    ensures MinOf(base, s) <= base
    ensures forall i :: 0 <= i < |s| ==> MinOf(base, s) <= s[i]
    ensures MinOf(base, s) == base || exists i :: 0 <= i < |s| && s[i] == MinOf(base, s)
    decreases |s|
  {
    if s != [] {
      var p := s[..|s| - 1];
      MinOfIsMinimum(base, p);
      assert forall i :: 0 <= i < |p| ==> s[i] == p[i];
      if MinOf(base, s) != base && MinOf(base, s) != s[|s| - 1] {
        var i :| 0 <= i < |p| && p[i] == MinOf(base, p);
        assert s[i] == MinOf(base, s);
      }
    }
  }

  /** Once at least one sample has been taken, the running minimum is at most the running maximum. */
  lemma MinAtMostMax(s: seq<real>)
    requires s != []
    ensures MinOf(MinSentinel, s) <= MaxOf(MaxSentinel, s)
  {
    MinOfIsMinimum(MinSentinel, s);
    MaxOfIsMaximum(MaxSentinel, s);
  }

  lemma MaxOfAppend(base: real, s: seq<real>, x: real)
    ensures MaxOf(base, s + [x]) == Max(MaxOf(base, s), x)
  {
    assert (s + [x])[..|s|] == s;
  }

  lemma MinOfAppend(base: real, s: seq<real>, x: real)
    ensures MinOf(base, s + [x]) == Min(MinOf(base, s), x)
  {
    assert (s + [x])[..|s|] == s;
  }

  lemma SumAppend(s: seq<real>, x: real)
    ensures Sum(s + [x]) == Sum(s) + x
  {
    assert (s + [x])[..|s|] == s;
  }

  lemma {:induction false} SumPrependZero(s: seq<real>)
    ensures Sum([0.0] + s) == Sum(s)
    decreases |s|
  {
    if s != [] {
      var p := s[..|s| - 1];
      SumPrependZero(p);
      assert ([0.0] + s)[..|s|] == [0.0] + p;
    }
  }

  lemma MeanTimesCount(s: seq<real>)
    ensures ZeroSeededMean(s) * (|s| as real + 1.0) == Sum(s)
  {
  }

  /**
   The incremental mean update each included call performs: the old average
   weighted by w = count - initcount against the new duration, divided by
   1 + count - initcount. It is only evaluated on a call past the warm-up,
   where count - initcount >= 1, so the divisor is at least 2.
   */
  function MeanStep(avg: real, w: nat, d: real): real
    requires w >= 1
  {
    (avg * w as real + d) / (1.0 + w as real)
  }

  /**
   With weight w = k + 1 >= 1 (so the divisor is at least 2) the update turns
   the zero-seeded mean of k samples into that of k + 1.
   */
  lemma MeanUpdate(s: seq<real>, d: real)
    ensures MeanStep(ZeroSeededMean(s), |s| + 1, d) == ZeroSeededMean(s + [d])
  {
    SumAppend(s, d);
    MeanTimesCount(s);
  }

  /** Squared deviations expand into sums: Q - 2mS + n m^2. */
  lemma {:induction false} SquaredDeviationsExpand(s: seq<real>, m: real)
    ensures SquaredDeviations(s, m) == SumOfSquares(s) - 2.0 * m * Sum(s) + |s| as real * m * m
    decreases |s|
  {
    if s != [] {
      var p, x := s[..|s| - 1], s[|s| - 1];
      SquaredDeviationsExpand(p, m);
      ExpandAlgebra(SumOfSquares(p), Sum(p), |p| as real, SquaredDeviations(p, m), x, m,
                    SumOfSquares(s), Sum(s), |s| as real, SquaredDeviations(s, m));
    }
  }

  lemma ExpandAlgebra(q: real, sum: real, n: real, dev: real, x: real, m: real,
                      q': real, sum': real, n': real, dev': real)
    requires dev == q - 2.0 * m * sum + n * m * m
    requires q' == q + x * x && sum' == sum + x && n' == n + 1.0 && dev' == dev + (x - m) * (x - m)
    ensures dev' == q' - 2.0 * m * sum' + n' * m * m
  {
  }

  lemma {:induction false} SquaredDeviationsNonnegative(s: seq<real>, m: real)
    ensures SquaredDeviations(s, m) >= 0.0
    decreases |s|
  {
    if s != [] {
      SquaredDeviationsNonnegative(s[..|s| - 1], m);
      var e := s[|s| - 1] - m;
      assert e * e >= 0.0;
    }
  }

  /** The facts about one Welford step, over plain reals: the old and new mean, and both expanded sums. */
  ghost predicate WelfordFacts(q: real, sum: real, n: real, d: real, a: real, a': real, before: real, after: real)
  {
    && a * n == sum
    && a' * (n + 1.0) == sum + d
    && before == q - 2.0 * a * sum + n * a * a
    && after == q + d * d - 2.0 * a' * (sum + d) + (n + 1.0) * a' * a'
  }

  lemma WelfordAlgebra(q: real, sum: real, n: real, d: real, a: real, a': real, before: real, after: real)
    requires WelfordFacts(q, sum, n, d, a, a', before, after)
    ensures after == before + (d - a) * (d - a')
  {
    assert (n + 1.0) * a' * a' == a' * (sum + d) by {
      MulLeft(a', a' * (n + 1.0), sum + d);
    }
    assert n * a * a == a * sum by {
      MulLeft(a, a * n, sum);
    }
    assert a * (sum + d - a') == a' * sum by {
      MulLeft(a, sum + d - a', a' * (n + 1.0) - a');
      MulLeft(a', a * n, sum);
    }
    assert after == q + d * d - a' * (sum + d);
    assert before == q - a * sum;
  }

  lemma MulLeft(k: real, x: real, y: real)
    requires x == y
    ensures k * x == k * y
  {
  }

  /** A product whose factors are replaced by equal ones keeps its value. */
  lemma Rescale(a: real, b: real, n: real, m: real, total: real)
    requires a == b && n == m && b * m == total
    ensures a * n == total
  {
  }

  lemma WelfordTerms(s: seq<real>, d: real, a: real, a': real)
    requires a * |s| as real == Sum(s) && a' * (|s| as real + 1.0) == Sum(s + [d])
    ensures WelfordFacts(SumOfSquares(s), Sum(s), |s| as real, d, a, a',
                         SquaredDeviations(s, a), SquaredDeviations(s + [d], a'))
  {
    SumAppend(s, d);
    SquaredDeviationsExpand(s, a);
    SquaredDeviationsAppendExpand(s, d, a');
  }

  /**
   The `sq` update of an included call (Java collector): the product of the duration's
   distances from the old and from the new average.
   */
  function SqStep(sq: real, avg: real, avgNew: real, d: real): real
  {
    sq + (d - avg) * (d - avgNew)
  }

  /**
   Welford's step: appending `d` to a list whose mean is `a` and re-centring on
   the new mean `a'` adds exactly (d - a) * (d - a') to the squared deviations.
   */
  lemma WelfordStep(s: seq<real>, d: real, a: real, a': real, n: real, n': real)
    requires n == |s| as real && n' == n + 1.0
    requires a * n == Sum(s) && a' * n' == Sum(s + [d])
    ensures SquaredDeviations(s + [d], a') == SqStep(SquaredDeviations(s, a), a, a', d)
  {
    Rescale(a, a, |s| as real, n, Sum(s));
    Rescale(a', a', |s| as real + 1.0, n', Sum(s + [d]));
    WelfordTerms(s, d, a, a');
    WelfordAlgebra(SumOfSquares(s), Sum(s), |s| as real, d, a, a',
                   SquaredDeviations(s, a), SquaredDeviations(s + [d], a'));
  }

  /**
   The `sq` update in terms of the samples: the squared deviations of the list
   0, d1, ..., dk from its mean (the zero-seeded mean of d1..dk) grow by
   (d - avgOld) * (d - avgNew) when d is appended.
   */
  lemma ZeroSeededWelford(s: seq<real>, d: real)
    ensures SquaredDeviations([0.0] + (s + [d]), ZeroSeededMean(s + [d]))
         == SqStep(SquaredDeviations([0.0] + s, ZeroSeededMean(s)), ZeroSeededMean(s), ZeroSeededMean(s + [d]), d)
  {
    ZeroSeededTotals(s, d);
    WelfordStep([0.0] + s, d, ZeroSeededMean(s), ZeroSeededMean(s + [d]), |s| as real + 1.0, |s + [d]| as real + 1.0);
  }

  /** The zero-seeded means of `s` and `s + [d]` as plain means of the lists headed by 0. */
  lemma ZeroSeededTotals(s: seq<real>, d: real)
    ensures ([0.0] + s) + [d] == [0.0] + (s + [d])
    ensures ZeroSeededMean(s) * (|s| as real + 1.0) == Sum([0.0] + s)
    ensures ZeroSeededMean(s + [d]) * (|s + [d]| as real + 1.0) == Sum(([0.0] + s) + [d])
  {
    SumPrependZero(s);
    SumPrependZero(s + [d]);
    MeanTimesCount(s);
    MeanTimesCount(s + [d]);
    assert ([0.0] + s) + [d] == [0.0] + (s + [d]);
  }

  lemma SquaredDeviationsAppendExpand(s: seq<real>, d: real, m: real)
    ensures SquaredDeviations(s + [d], m)
         == SumOfSquares(s) + d * d - 2.0 * m * (Sum(s) + d) + (|s| as real + 1.0) * m * m
  {
    SumAppend(s, d);
    assert (s + [d])[..|s|] == s;
    SquaredDeviationsExpand(s + [d], m);
  }

  lemma {:induction false} DurationsAppend(h: seq<real>, t: real)
    ensures Durations(h + [t]) == Durations(h) + [t - Last(h)]
  {
    assert (h + [t])[..|h|] == h;
  }

  /** Call j's duration is timestamp j minus timestamp j - 1 (minus 0 for the first call). */
  lemma {:induction false} DurationsAt(h: seq<real>, j: nat)
    requires j < |h|
    ensures Durations(h)[j] == h[j] - (if j == 0 then 0.0 else h[j - 1])
    decreases |h|
  {
    var p := h[..|h| - 1];
    if j < |p| {
      DurationsAt(p, j);
    }
  }

  /** A call contributes its duration iff its pre-increment count exceeds the warm-up. */
  lemma IncludedAppend(h: seq<real>, t: real, warmup: nat)
    ensures Included(h + [t], warmup)
         == Included(h, warmup) + (if |h| > warmup then [t - Last(h)] else [])
  {
    DurationsAppend(h, t);
  }

  /**
   The durations telescope: the included samples add up to the elapsed time
   between the timestamp of the last warm-up call and the latest one.
   */
  lemma {:induction false} IncludedTelescopes(h: seq<real>, warmup: nat)
    requires |h| > warmup
    ensures Sum(Included(h, warmup)) == Last(h) - h[warmup]
    decreases |h|
  {
    if |h| > warmup + 1 {
      var p := h[..|h| - 1];
      assert h == p + [h[|h| - 1]];
      IncludedTelescopes(p, warmup);
      IncludedAppend(p, h[|h| - 1], warmup);
      SumAppend(Included(p, warmup), h[|h| - 1] - Last(p));
    } else {
      assert Included(h, warmup) == [];
    }
  }

  /** Statistics of a stream whose samples all equal `p`. */
  lemma {:induction false} ConstantStream(s: seq<real>, p: real)
    requires forall i :: 0 <= i < |s| ==> s[i] == p
    ensures Sum(s) == |s| as real * p
    ensures s != [] && p >= MaxSentinel ==> MaxOf(MaxSentinel, s) == p
    ensures s != [] && p <= MinSentinel ==> MinOf(MinSentinel, s) == p
    decreases |s|
  {
    if s != [] {
      ConstantStream(s[..|s| - 1], p);
    }
  }

  /**
   The zero-seeded mean is not the arithmetic mean: for a stream of equal
   positive durations it lies strictly below both running extremes, so
   `min <= avg` does not hold in general.
   */
  lemma ZeroSeededMeanBelowMin(s: seq<real>, p: real)
    requires s != [] && 0.0 < p <= MinSentinel
    requires forall i :: 0 <= i < |s| ==> s[i] == p
    ensures ZeroSeededMean(s) == |s| as real * p / (|s| as real + 1.0)
    ensures ZeroSeededMean(s) < MinOf(MinSentinel, s) == MaxOf(MaxSentinel, s) == p
  {
    ConstantStream(s, p);
    var k := |s| as real;
    assert k * p / (k + 1.0) < p by {
      assert k * p < (k + 1.0) * p;
    }
  }

  /** Timestamps taken every `p` seconds from 0 yield included durations that all equal `p`. */
  lemma EvenlySpacedDurations(h: seq<real>, p: real, warmup: nat)
    requires forall j :: 0 <= j < |h| ==> h[j] == j as real * p
    ensures forall i :: 0 <= i < |Included(h, warmup)| ==> Included(h, warmup)[i] == p
    ensures |Included(h, warmup)| == if |h| <= warmup + 1 then 0 else |h| - warmup - 1
  {
    var s := Included(h, warmup);
    forall i | 0 <= i < |s| ensures s[i] == p {
      var j := i + warmup + 1;
      assert s[i] == Durations(h)[j];
      DurationsAt(h, j);
      assert h[j] - h[j - 1] == j as real * p - (j - 1) as real * p;
    }
  }
}
