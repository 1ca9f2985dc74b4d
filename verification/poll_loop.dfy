/** `doPoll` written the way the scheduler thread runs it: admission, then a
    `for (;;)` loop that peeks, reads the clock, and either returns or takes
    the record out and runs it. */
module PollLoop {
  import opened Clock
  import opened Tasks
  import opened PlannedQueue
  import opened Trace
  import opened ExactDateScheduler

  /** A drain result with the runs `ex` put in front of its trace. */
  function After(ex: seq<Executed>, d: Drained): (r: Drained)
    ensures r.planned == d.planned && r.pollTimeout == d.pollTimeout && r.timer == d.timer
    ensures |r.executed| == |ex| + |d.executed|
  {
    Drained(d.planned, ex + d.executed, d.pollTimeout, d.timer)
  }

  /** The loop invariant: the runs `ex` done so far, followed by what the
      drain of the remaining collection `q` runs, make up the drain of the
      admitted collection `admitted`. */
  ghost predicate LoopAgrees(admitted: seq<TaskStruct>, q: seq<TaskStruct>, ex: seq<Executed>, clock: nat -> Instant, body: Info -> Outcome) {
    Drain(admitted, clock, body, 0) == After(ex, Drain(q, clock, body, |ex|))
  }

  /** The loop stops where the drain stops: on an empty collection, or on
      one whose least record is not yet due. */
  lemma LoopStops(admitted: seq<TaskStruct>, q: seq<TaskStruct>, ex: seq<Executed>, clock: nat -> Instant, body: Info -> Outcome)
    requires LoopAgrees(admitted, q, ex, clock, body)
    requires |q| == 0 || MillisBetween(clock(|ex|), q[IndexOfMin(q)].begin) > 0
    ensures |q| == 0 ==> Drain(admitted, clock, body, 0) == Drained(q, ex, 0, None)
    ensures |q| > 0 ==> Drain(admitted, clock, body, 0)
                        == Drained(q, ex, MillisBetween(clock(|ex|), q[IndexOfMin(q)].begin),
                                   Some(MillisBetween(clock(|ex|), q[IndexOfMin(q)].begin)))
  {
    assert ex + [] == ex;
  }

  /** One iteration that runs the least record keeps the invariant: the
      record moves from the front of the drain's trace to the end of the
      runs done so far. */
  lemma {:induction false} LoopStep(admitted: seq<TaskStruct>, q: seq<TaskStruct>, ex: seq<Executed>, clock: nat -> Instant, body: Info -> Outcome)
    requires LoopAgrees(admitted, q, ex, clock, body)
    requires |q| > 0
    requires MillisBetween(clock(|ex|), q[IndexOfMin(q)].begin) <= 0
    ensures LoopAgrees(admitted, RemoveAt(q, IndexOfMin(q)),
                       ex + [RunSafely(Info(q[IndexOfMin(q)], clock(|ex|)), body)], clock, body)
  {
    var i := IndexOfMin(q);
    var e := RunSafely(Info(q[i], clock(|ex|)), body);
    var rest := Drain(RemoveAt(q, i), clock, body, |ex| + 1);
    assert Drain(q, clock, body, |ex|) == Drained(rest.planned, [e] + rest.executed, rest.pollTimeout, rest.timer);
    AfterCons(ex, e, rest);
    assert |ex + [e]| == |ex| + 1;
  }

  lemma AfterCons(ex: seq<Executed>, e: Executed, d: Drained)
    ensures After(ex, Drained(d.planned, [e] + d.executed, d.pollTimeout, d.timer)) == After(ex + [e], d)
  {
    assert (ex + [e]) + d.executed == ex + ([e] + d.executed);
  }

  /** `doPoll` as the scheduler thread runs it; it computes exactly the
      activation `DoPoll` defines. */
  method DoPollLoop(s: Scheduler, item: Inbound, clock: nat -> Instant, body: Info -> Outcome) returns (r: Poll)
    ensures r == DoPoll(s, item, clock, body)
  {
    var a := Admit(s, item);
    var q := a.planned;
    var executed: seq<Executed> := [];
    var d: Drained;
    assert After([], Drain(q, clock, body, 0)) == Drain(q, clock, body, 0);
    while true
      invariant LoopAgrees(a.planned, q, executed, clock, body)
      decreases |q|
    {
      if |q| == 0 {
        LoopStops(a.planned, q, executed, clock, body);
        d := Drained(q, executed, 0, None);
        break;
      }
      var i := IndexOfMin(q);
      var now := clock(|executed|);
      var timeout := MillisBetween(now, q[i].begin);
      if timeout > 0 {
        LoopStops(a.planned, q, executed, clock, body);
        d := Drained(q, executed, timeout, Some(timeout));
        break;
      }
      LoopStep(a.planned, q, executed, clock, body);
      var e := RunSafely(Info(q[i], now), body);
      q := RemoveAt(q, i);
      executed := executed + [e];
    }
    r := Poll(a.(planned := d.planned, pollTimeout := d.pollTimeout), d.executed, d.timer);
    DoPollDrains(s, item, clock, body, d);
  }

  /** `DoPoll` installs the result of the drain of the admitted collection. */
  lemma DoPollDrains(s: Scheduler, item: Inbound, clock: nat -> Instant, body: Info -> Outcome, d: Drained)
    requires d == Drain(Admit(s, item).planned, clock, body, 0)
    ensures DoPoll(s, item, clock, body)
            == Poll(Admit(s, item).(planned := d.planned, pollTimeout := d.pollTimeout), d.executed, d.timer)
  {
  }
}
