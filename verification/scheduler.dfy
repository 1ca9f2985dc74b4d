/** One activation (`doPoll`) of the exact-date scheduler as a pure step
    function, plus the rejection path of `schedule`.

    The step takes the scheduler state, the one inbound item the activation
    dequeued, the clock, and the behaviour of the task bodies; it returns the
    next state, the trace of records it ran, and the delay of the one-shot
    timer it armed, if any.  The clock is a function from loop iteration to
    reading: the loop reads `LocalDateTime.now()` once per iteration, and
    reading `k` is the one taken after `k` records have run. */
module ExactDateScheduler {
  import opened Clock
  import opened Tasks
  import opened PlannedQueue
  import opened Trace

  datatype Option<T> = None | Some(value: T)

  /** An inbound item: an ordinary record handed over by `schedule`, or the
      timeout marker the timer callback injects. */
  datatype Inbound = Record(begin: Instant, task: Task) | Tick

  /** The scheduler-thread state: the planned collection, the admission
      counter, the fixed capacity, and the last computed poll timeout. */
  datatype Scheduler = Scheduler(
    planned: seq<TaskStruct>,
    taskCounter: nat,
    plannedTasksLimit: int,
    pollTimeout: int)

  /** What an activation leaves behind. `timer` is the delay, in
      milliseconds, of the one-shot timer armed on the way out. */
  datatype Poll = Poll(next: Scheduler, executed: seq<Executed>, timer: Option<int>)

  /** The outcome of the drain loop alone. */
  datatype Drained = Drained(
    planned: seq<TaskStruct>,
    executed: seq<Executed>,
    pollTimeout: int,
    timer: Option<int>)

  /** A freshly created scheduler: nothing planned, counter at zero. */
  function Create(plannedTasksLimit: int): (s: Scheduler)
    ensures Valid(s)
    ensures plannedTasksLimit >= 0 ==> WithinLimit(s)
    ensures s.planned == [] && s.taskCounter == 0 && s.plannedTasksLimit == plannedTasksLimit
  {
    Scheduler([], 0, plannedTasksLimit, 0)
  }

  /** Admission numbers of planned records are distinct and below the
      counter. */
  predicate Valid(s: Scheduler) {
    DistinctOrders(s.planned) && OrdersBelow(s.planned, s.taskCounter)
  }

  /** The capacity invariant. */
  predicate WithinLimit(s: Scheduler) {
    |s.planned| <= s.plannedTasksLimit
  }

  /** The inbound item is an ordinary record and there is room for it. */
  predicate Admits(s: Scheduler, item: Inbound) {
    item.Record? && |s.planned| < s.plannedTasksLimit
  }

  /** The admission phase of `doPoll`. An admitted record receives the
      current counter value as its order and the counter moves on by one;
      the timeout marker and a record that finds the collection full leave
      the state exactly as it was. */
  function Admit(s: Scheduler, item: Inbound): (a: Scheduler)
    ensures a.plannedTasksLimit == s.plannedTasksLimit && a.pollTimeout == s.pollTimeout
    ensures Admits(s, item) ==>
              && a.taskCounter == s.taskCounter + 1
              && |a.planned| == |s.planned| + 1
              && multiset(a.planned)
                 == multiset(s.planned) + multiset{TaskStruct(item.begin, item.task, s.taskCounter)}
    ensures !Admits(s, item) ==> a == s
    ensures WithinLimit(s) ==> WithinLimit(a)
  {
    if item.Record? && |s.planned| < s.plannedTasksLimit then
      var rec := TaskStruct(item.begin, item.task, s.taskCounter);
      s.(planned := Offer(s.planned, rec), taskCounter := s.taskCounter + 1)
    else
      s
  }

  /** Admission hands out a fresh admission number. */
  lemma AdmitKeepsValid(s: Scheduler, item: Inbound)
    ensures Valid(s) ==> Valid(Admit(s, item))
  {
    if Valid(s) && Admits(s, item) {
      OfferKeepsDistinct(s.planned, TaskStruct(item.begin, item.task, s.taskCounter), s.taskCounter);
    }
  }

  /** The drain loop of `doPoll`, entered after `k` records have run. It
      peeks the least record; if the collection is empty it stops with no
      timer; if the least record is not yet due it stops and arms a timer
      for the remaining milliseconds; otherwise it removes that record,
      stamps it with the current reading, runs it, and goes round again,
      whatever the body's outcome. */
  function Drain(q: seq<TaskStruct>, clock: nat -> Instant, body: Info -> Outcome, k: nat): (d: Drained)
    decreases |q|
    // Exit conditions: idle with nothing planned, or exactly one timer for
    // a positive delay (`DrainStopsAtMin` says which).
    ensures d.planned == [] ==> d.pollTimeout == 0 && d.timer == None
    ensures d.planned != [] ==> d.pollTimeout > 0 && d.timer == Some(d.pollTimeout)
  {
    if |q| == 0 then
      Drained(q, [], 0, None)
    else
      var i := IndexOfMin(q);
      var now := clock(k);
      var timeout := MillisBetween(now, q[i].begin);
      if timeout > 0 then
        Drained(q, [], timeout, Some(timeout))
      else
        var e := RunSafely(Info(q[i], now), body);
        var rest := Drain(RemoveAt(q, i), clock, body, k + 1);
        Drained(rest.planned, [e] + rest.executed, rest.pollTimeout, rest.timer)
  }

  /** A drain that started after `k` runs and stopped with records left
      computed its poll timeout from the least of them, at the reading of
      its last iteration. */
  ghost predicate ArmedForMin(d: Drained, clock: nat -> Instant, k: nat) {
    d.planned != [] ==> d.pollTimeout == MillisBetween(clock(k + |d.executed|), Min(d.planned).begin)
  }

  /** Putting one more run in front of a drain that started one run later
      keeps the timeout tied to the least record left. */
  lemma ArmedCons(e: Executed, rest: Drained, clock: nat -> Instant, k: nat)
    requires ArmedForMin(rest, clock, k + 1)
    ensures ArmedForMin(Drained(rest.planned, [e] + rest.executed, rest.pollTimeout, rest.timer), clock, k)
  {
    assert k + |[e] + rest.executed| == k + 1 + |rest.executed|;
  }

  /** When the loop stops with records left, the delay it arms is the
      truncated millisecond gap from the reading of its last iteration to
      the least record left. */
  lemma {:induction false} DrainStopsAtMin(q: seq<TaskStruct>, clock: nat -> Instant, body: Info -> Outcome, k: nat)
    decreases |q|
    ensures ArmedForMin(Drain(q, clock, body, k), clock, k)
  {
    if |q| > 0 {
      var i := IndexOfMin(q);
      var now := clock(k);
      if MillisBetween(now, q[i].begin) <= 0 {
        var e := RunSafely(Info(q[i], now), body);
        var rest := Drain(RemoveAt(q, i), clock, body, k + 1);
        assert Drain(q, clock, body, k) == Drained(rest.planned, [e] + rest.executed, rest.pollTimeout, rest.timer);
        DrainStopsAtMin(RemoveAt(q, i), clock, body, k + 1);
        ArmedCons(e, rest, clock, k);
      }
    }
  }

  /** One round of the drain loop keeps every record accounted for: the
      record it runs moves from the collection to the front of the trace. */
  lemma ConserveRound(q: seq<TaskStruct>, i: nat, e: Executed, rest: Drained)
    requires i < |q|
    requires e.info.rec == q[i]
    requires multiset(RemoveAt(q, i)) == multiset(rest.planned) + multiset(Records(rest.executed))
    ensures multiset(q) == multiset(rest.planned) + multiset(Records([e] + rest.executed))
  {
    RemoveAtRestores(q, i);
    RecordsAppend([e], rest.executed);
    assert Records([e]) == [q[i]];
  }

  /** One round of the drain loop, apart from the loop: the least record
      `q[i]` precedes everything the rest of the loop runs or leaves
      behind. */
  lemma MinRound(q: seq<TaskStruct>, i: nat, e: Executed, rest: Drained)
    requires i < |q|
    requires forall j :: 0 <= j < |q| ==> LessEq(q[i], q[j])
    requires e.info.rec == q[i]
    requires multiset(RemoveAt(q, i)) == multiset(rest.planned) + multiset(Records(rest.executed))
    ensures forall j :: 0 <= j < |rest.executed| ==> LessEq(e.info.rec, rest.executed[j].info.rec)
    ensures forall x :: x in rest.planned ==> LessEq(e.info.rec, x)
  {
    var done := Records(rest.executed);
    MinPrecedesRest(q, i);
    SplitMembers(RemoveAt(q, i), rest.planned, done);
    forall j | 0 <= j < |rest.executed|
      ensures LessEq(e.info.rec, rest.executed[j].info.rec)
    {
      assert done[j] in done;
    }
  }

  /** Records are only removed, and each removed record is in the trace. */
  lemma {:induction false} DrainConserves(q: seq<TaskStruct>, clock: nat -> Instant, body: Info -> Outcome, k: nat)
    decreases |q|
    ensures multiset(q)
            == multiset(Drain(q, clock, body, k).planned) + multiset(Records(Drain(q, clock, body, k).executed))
  {
    if |q| > 0 {
      var i := IndexOfMin(q);
      var now := clock(k);
      if MillisBetween(now, q[i].begin) <= 0 {
        var e := RunSafely(Info(q[i], now), body);
        var rest := Drain(RemoveAt(q, i), clock, body, k + 1);
        assert Drain(q, clock, body, k) == Drained(rest.planned, [e] + rest.executed, rest.pollTimeout, rest.timer);
        DrainConserves(RemoveAt(q, i), clock, body, k + 1);
        ConserveRound(q, i, e, rest);
      }
    }
  }

  /** No early start: every record the loop runs is stamped with the reading
      of its own iteration, at which it was due, and keeps its body's
      outcome. */
  lemma {:induction false} DrainRunsOnlyDue(q: seq<TaskStruct>, clock: nat -> Instant, body: Info -> Outcome, k: nat)
    decreases |q|
    ensures StampedWhenDue(Drain(q, clock, body, k).executed, clock, body, k)
  {
    if |q| > 0 {
      var i := IndexOfMin(q);
      var now := clock(k);
      if MillisBetween(now, q[i].begin) <= 0 {
        var e := RunSafely(Info(q[i], now), body);
        var rest := Drain(RemoveAt(q, i), clock, body, k + 1).executed;
        assert Drain(q, clock, body, k).executed == [e] + rest;
        DueIff(q[i].begin, now);
        DrainRunsOnlyDue(RemoveAt(q, i), clock, body, k + 1);
        StampedCons(e, rest, clock, body, k);
      }
    }
  }

  /** Due order: the loop runs records in nondecreasing `(begin, order)`
      order, and each of them precedes every record it leaves behind. */
  lemma {:induction false} DrainInDueOrder(q: seq<TaskStruct>, clock: nat -> Instant, body: Info -> Outcome, k: nat)
    decreases |q|
    ensures InDueOrder(Drain(q, clock, body, k).executed)
    ensures RanBefore(Drain(q, clock, body, k).executed, Drain(q, clock, body, k).planned)
  {
    if |q| > 0 {
      var i := IndexOfMin(q);
      var now := clock(k);
      if MillisBetween(now, q[i].begin) <= 0 {
        var e := RunSafely(Info(q[i], now), body);
        var rest := Drain(RemoveAt(q, i), clock, body, k + 1);
        assert Drain(q, clock, body, k) == Drained(rest.planned, [e] + rest.executed, rest.pollTimeout, rest.timer);
        DrainConserves(RemoveAt(q, i), clock, body, k + 1);
        DrainInDueOrder(RemoveAt(q, i), clock, body, k + 1);
        MinRound(q, i, e, rest);
        DueOrderCons(e, rest.executed, rest.planned);
      }
    }
  }

  /** Task isolation: what the loop removes, stamps and leaves behind, and
      the timer it arms, do not depend on whether task bodies fail. */
  lemma {:induction false} DrainIgnoresOutcomes(
    q: seq<TaskStruct>, clock: nat -> Instant, body1: Info -> Outcome, body2: Info -> Outcome, k: nat)
    decreases |q|
    ensures Drain(q, clock, body1, k).planned == Drain(q, clock, body2, k).planned
    ensures Drain(q, clock, body1, k).pollTimeout == Drain(q, clock, body2, k).pollTimeout
    ensures Drain(q, clock, body1, k).timer == Drain(q, clock, body2, k).timer
    ensures SameRuns(Drain(q, clock, body1, k).executed, Drain(q, clock, body2, k).executed)
  {
    if |q| > 0 {
      var i := IndexOfMin(q);
      var now := clock(k);
      if MillisBetween(now, q[i].begin) <= 0 {
        var q' := RemoveAt(q, i);
        var e1, e2 := RunSafely(Info(q[i], now), body1), RunSafely(Info(q[i], now), body2);
        var r1, r2 := Drain(q', clock, body1, k + 1), Drain(q', clock, body2, k + 1);
        assert Drain(q, clock, body1, k) == Drained(r1.planned, [e1] + r1.executed, r1.pollTimeout, r1.timer);
        assert Drain(q, clock, body2, k) == Drained(r2.planned, [e2] + r2.executed, r2.pollTimeout, r2.timer);
        DrainIgnoresOutcomes(q', clock, body1, body2, k + 1);
        SameRunsCons(e1, e2, r1.executed, r2.executed);
      }
    }
  }

  /** `doPoll`: admission of the one inbound item, then the drain loop. */
  function DoPoll(s: Scheduler, item: Inbound, clock: nat -> Instant, body: Info -> Outcome): (r: Poll)
    // Only admission moves the counter; the capacity never changes.
    ensures r.next.taskCounter == Admit(s, item).taskCounter
    ensures r.next.plannedTasksLimit == s.plannedTasksLimit
    // Capacity invariant and well-formedness.
    ensures WithinLimit(s) ==> WithinLimit(r.next)
    ensures Valid(s) ==> Valid(r.next)
    // Draining only removes, and removes exactly what it runs.
    ensures multiset(Admit(s, item).planned) == multiset(r.next.planned) + multiset(Records(r.executed))
    // No early start.
    ensures StampedWhenDue(r.executed, clock, body, 0)
    // Due order.
    ensures InDueOrder(r.executed) && RanBefore(r.executed, r.next.planned)
    // Exit conditions: idle with nothing planned, or exactly one timer for
    // the positive gap to the least record, which is not yet due.
    ensures r.next.planned == [] ==> r.next.pollTimeout == 0 && r.timer == None
    ensures r.next.planned != [] ==>
              && r.next.pollTimeout > 0
              && r.timer == Some(r.next.pollTimeout)
              && r.next.pollTimeout == MillisBetween(clock(|r.executed|), Min(r.next.planned).begin)
              && !Due(Min(r.next.planned).begin, clock(|r.executed|))
  {
    var a := Admit(s, item);
    var d := Drain(a.planned, clock, body, 0);
    AdmitKeepsValid(s, item);
    DrainConserves(a.planned, clock, body, 0);
    DrainRunsOnlyDue(a.planned, clock, body, 0);
    DrainInDueOrder(a.planned, clock, body, 0);
    DrainStopsAtMin(a.planned, clock, body, 0);
    SubBagKeepsOrders(a.planned, d.planned, a.taskCounter);
    if d.planned != [] then
      DueIff(Min(d.planned).begin, clock(|d.executed|));
      Poll(a.(planned := d.planned, pollTimeout := d.pollTimeout), d.executed, d.timer)
    else
      Poll(a.(planned := d.planned, pollTimeout := d.pollTimeout), d.executed, d.timer)
  }

  /** The message of the `RejectedExecutionException` `schedule` throws. */
  const FloodedMessage: string := "github.jcext.sample.ExactDateScheduler is flooded"

  /** What `schedule` does to its caller: return normally, or throw. */
  datatype Submission = Accepted | Rejected(message: string)

  /** A call of `schedule(beginAt, task)`: the item it hands to the inbound
      queue's `offer`, and what the caller sees. */
  datatype ScheduleCall = ScheduleCall(offered: Inbound, result: Submission)

  /** `schedule(beginAt, task)`, with the inbound queue's `offer` as a
      parameter: it offers an ordinary record, and throws exactly when the
      offer is refused. */
  function Schedule(beginAt: Instant, task: Task, offer: Inbound -> bool): (c: ScheduleCall)
    ensures c.offered.Record? && c.offered.begin == beginAt && c.offered.task == task
    ensures c.result.Rejected? <==> !offer(c.offered)
    ensures c.result.Rejected? ==> c.result.message == FloodedMessage
  {
    var item := Record(beginAt, task);
    if !offer(item) then ScheduleCall(item, Rejected(FloodedMessage)) else ScheduleCall(item, Accepted)
  }
}
