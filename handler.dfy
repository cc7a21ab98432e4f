/**
 The periodic callback of the C++ robot: the function-local statics of
 `Robot::handler` (the call counter `i`, the timer and a collector reporting
 every 200 calls after 200 warm-up calls) as an object whose `Call` is one
 invocation. On the first call only, the thread is named and given a FIFO
 real-time priority and the timer is started; every call then records the
 timer's elapsed time. The operating-system calls are recorded as events.
 */
module Handler {
  import CppTimeStats

  datatype Policy = Fifo

  /** What one invocation does, in order. */
  datatype Event =
    | NameThread(name: string)          // pthread_setname_np
    | ReadSchedParam                    // pthread_getschedparam
    | SetSchedParam(policy: Policy, priority: int)  // pthread_setschedparam
    | StartTimer                        // tmr->Start()
    | Recorded(elapsed: real)           // t.Record(tmr->Get())

  /** The one-time setup of the first call. */
  const Setup: seq<Event> := [NameThread("2 thread"), ReadSchedParam, SetSchedParam(Fifo, 2), StartTimer]

  /** The timer readings of the calls at clock times `c`: the time since the first call started the timer. */
  function Elapsed(c: seq<real>): (e: seq<real>)
    ensures |e| == |c|
    decreases |c|
  {
    if c == [] then [] else Elapsed(c[..|c| - 1]) + [c[|c| - 1] - c[0]]
  }

  /** Everything the calls at clock times `c` did: the first one sets up, and each records once. */
  function Trace(c: seq<real>): seq<Event>
    decreases |c|
  {
    if c == [] then []
    else Trace(c[..|c| - 1]) + (if |c| == 1 then Setup else []) + [Recorded(c[|c| - 1] - c[0])]
  }

  /** How many times the timer was started. */
  function StartCount(e: seq<Event>): nat
  {
    multiset(e)[StartTimer]
  }

  /** The values passed to `Record`, in order. */
  function RecordedValues(e: seq<Event>): seq<real>
    decreases |e|
  {
    if e == [] then []
    else RecordedValues(e[..|e| - 1]) + (if e[|e| - 1].Recorded? then [e[|e| - 1].elapsed] else [])
  }

  class Handler {
    var i: nat
    var timerRunning: bool
    var timerStart: real
    var t: CppTimeStats.TimeStats

    /** The clock time of every call so far, and everything the calls did. */
    ghost var clock: seq<real>
    ghost var events: seq<Event>

    ghost predicate Valid()
      reads this, t
    {
      && t.Valid() && t.logcount == 200 && t.initcount == 200
      && i == |clock|
      && timerRunning == (i > 0)
      && (i > 0 ==> timerStart == clock[0])
      && t.history == Elapsed(clock)
      && events == Trace(clock)
    }

    /** The statics before the first call. */
    constructor ()
      ensures Valid() && fresh(t)
      ensures i == 0 && !timerRunning && clock == [] && events == []
    {
      i := 0;
      timerRunning := false;
      timerStart := 0.0;
      t := new CppTimeStats.TimeStats(200, 200);
      clock := [];
      events := [];
    }

    /** One invocation of the handler at clock time `now`. */
    method Call(now: real)
      requires Valid()
      modifies this, t
      ensures Valid()
      ensures t == old(t) && i == old(i) + 1 && clock == old(clock) + [now]
      ensures timerRunning && timerStart == (if old(i) == 0 then now else old(timerStart))
      ensures events == old(events) + (if old(i) == 0 then Setup else []) + [Recorded(now - timerStart)]
      ensures t.history == old(t.history) + [now - timerStart]
    {
      TraceAppend(clock, now);
      if i == 0 {
        // pthread_setname_np, pthread_getschedparam, pthread_setschedparam, tmr->Start()
        events := events + Setup;
        timerRunning := true;
        timerStart := now;
      }
      var elapsed := now - timerStart;
      t.Record(elapsed);
      events := events + [Recorded(elapsed)];
      i := i + 1;
      clock := clock + [now];
    }
  }

  /** One more call appends the setup if it is the first, then its record. */
  lemma TraceAppend(c: seq<real>, now: real)
    ensures Trace(c + [now])
         == Trace(c) + (if c == [] then Setup else []) + [Recorded(now - (c + [now])[0])]
    ensures Elapsed(c + [now]) == Elapsed(c) + [now - (c + [now])[0]]
  {
    assert (c + [now])[..|c|] == c;
  }

  lemma {:induction false} RecordedValuesAppend(a: seq<Event>, b: seq<Event>)
    ensures RecordedValues(a + b) == RecordedValues(a) + RecordedValues(b)
    decreases |b|
  {
    if b == [] {
      assert a + b == a;
    } else {
      var p := b[..|b| - 1];
      assert (a + b)[..|a + b| - 1] == a + p;
      RecordedValuesAppend(a, p);
    }
  }

  /** The trace of a nonempty run, event by event: the setup, then the record of call k - 4. */
  lemma {:induction false} TraceAt(c: seq<real>, k: nat)
    requires c != [] && k < |c| + 4
    ensures |Trace(c)| == |c| + 4
    ensures Trace(c)[k] == if k < 4 then Setup[k] else Recorded(c[k - 4] - c[0])
    decreases |c|
  {
    var p := c[..|c| - 1];
    if p == [] {
      assert Trace(c) == Setup + [Recorded(c[0] - c[0])];
    } else {
      assert Trace(c) == Trace(p) + [Recorded(c[|c| - 1] - c[0])];
      if k < |p| + 4 {
        TraceAt(p, k);
      } else {
        TraceAt(p, 0);
      }
    }
  }

  /** The first-call guard: over any number of calls the timer is started exactly once, never before the first call. */
  lemma {:induction false} TimerStartedOnce(c: seq<real>)
    ensures StartCount(Trace(c)) == if c == [] then 0 else 1
    decreases |c|
  {
    if c != [] {
      var p := c[..|c| - 1];
      TimerStartedOnce(p);
      var r := Recorded(c[|c| - 1] - c[0]);
      if p == [] {
        assert Trace(c) == Setup + [r];
        assert multiset(Trace(c)) == multiset(Setup) + multiset{r};
      } else {
        assert Trace(c) == Trace(p) + [r];
        assert multiset(Trace(c)) == multiset(Trace(p)) + multiset{r};
      }
    }
  }

  /** Every record comes after the timer was started: the start is event 3, the records are events 4 onwards. */
  lemma TimerStartedBeforeRecords(c: seq<real>)
    requires c != []
    ensures |Trace(c)| == |c| + 4
    ensures Trace(c)[..4] == Setup && Trace(c)[3] == StartTimer
    ensures forall k :: 0 <= k < |Trace(c)| ==> (Trace(c)[k].Recorded? <==> 4 <= k)
  {
    TraceAt(c, 0);
    forall k | 0 <= k < |Trace(c)| ensures Trace(c)[k] == if k < 4 then Setup[k] else Recorded(c[k - 4] - c[0]) {
      TraceAt(c, k);
    }
  }

  /** Every call records exactly once, and the k-th record is the elapsed time of call k. */
  lemma {:induction false} OneRecordPerCall(c: seq<real>)
    ensures RecordedValues(Trace(c)) == Elapsed(c)
    decreases |c|
  {
    if c != [] {
      var p := c[..|c| - 1];
      var r := Recorded(c[|c| - 1] - c[0]);
      OneRecordPerCall(p);
      var mid := if p == [] then Setup else [];
      RecordedValuesAppend(Trace(p) + mid, [r]);
      RecordedValuesAppend(Trace(p), mid);
      assert RecordedValues([r]) == [r.elapsed] by {
        assert [r][..0] == [];
      }
      SetupRecordsNothing();
      assert forall k :: 0 <= k < |p| ==> c[k] == p[k];
    }
  }

  lemma SetupRecordsNothing()
    ensures RecordedValues(Setup) == []
  {
    assert RecordedValues(Setup[..1]) == [] by { assert Setup[..1][..0] == []; }
    assert RecordedValues(Setup[..2]) == [] by { assert Setup[..2][..1] == Setup[..1]; }
    assert RecordedValues(Setup[..3]) == [] by { assert Setup[..3][..2] == Setup[..2]; }
    assert Setup[..4][..3] == Setup[..3] && Setup[..4] == Setup;
  }

  lemma {:induction false} ElapsedAt(c: seq<real>)
    ensures forall k :: 0 <= k < |c| ==> Elapsed(c)[k] == c[k] - c[0]
    decreases |c|
  {
    if c != [] {
      var p := c[..|c| - 1];
      ElapsedAt(p);
      assert forall k :: 0 <= k < |p| ==> c[k] == p[k];
    }
  }
}
