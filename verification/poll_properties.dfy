/** What one activation of the scheduler guarantees, stated over the result
    of `DoPoll`: which records it runs, when, in which order, and that the
    failure of a task body changes none of it. */
module PollProperties {
  import opened Clock
  import opened Tasks
  import opened PlannedQueue
  import opened Trace
  import opened ExactDateScheduler

  /** Every record the activation leaves planned is not due at the reading
      of its last iteration: the loop stops only when the least record is
      not due, and every other record begins no earlier. */
  lemma NothingDueLeft(s: Scheduler, item: Inbound, clock: nat -> Instant, body: Info -> Outcome, r: Poll)
    requires r == DoPoll(s, item, clock, body)
    ensures forall x :: x in r.next.planned ==> !Due(x.begin, clock(|r.executed|))
  {
    if r.next.planned != [] {
      var m := Min(r.next.planned);
      forall x | x in r.next.planned
        ensures !Due(x.begin, clock(|r.executed|))
      {
        assert LessEq(m, x);
      }
    }
  }

  /** With a clock that never goes back, a record left planned was not due
      at any reading the activation took. */
  lemma NothingLeftWasDue(s: Scheduler, item: Inbound, clock: nat -> Instant, body: Info -> Outcome, r: Poll)
    requires forall j1, j2 :: 0 <= j1 <= j2 ==> clock(j1) <= clock(j2)
    requires r == DoPoll(s, item, clock, body)
    ensures forall x, j :: x in r.next.planned && 0 <= j <= |r.executed| ==> !Due(x.begin, clock(j))
  {
    NothingDueLeft(s, item, clock, body, r);
    forall x, j | x in r.next.planned && 0 <= j <= |r.executed|
      ensures !Due(x.begin, clock(j))
    {
      assert clock(j) <= clock(|r.executed|);
    }
  }

  /** Against one fixed reading `now`, every record of a stamped trace was
      due at `now`. */
  lemma RanWereDue(ex: seq<Executed>, now: Instant, clock: nat -> Instant, body: Info -> Outcome)
    requires forall j :: clock(j) == now
    requires StampedWhenDue(ex, clock, body, 0)
    ensures forall x :: x in Records(ex) ==> Due(x.begin, now)
  {
    var done := Records(ex);
    forall x | x in done
      ensures Due(x.begin, now)
    {
      var i :| 0 <= i < |done| && done[i] == x;
      assert Due(ex[i].info.rec.begin, clock(i));
    }
  }

  /** Against one fixed reading `now`, an activation runs exactly the
      admitted records that are due at `now` and keeps exactly the others
      planned. */
  lemma RunsExactlyTheDue(s: Scheduler, item: Inbound, now: Instant, clock: nat -> Instant, body: Info -> Outcome, r: Poll)
    requires forall j :: clock(j) == now
    requires r == DoPoll(s, item, clock, body)
    ensures forall x :: x in Admit(s, item).planned ==> (x in Records(r.executed) <==> Due(x.begin, now))
    ensures forall x :: x in r.next.planned <==> x in Admit(s, item).planned && !Due(x.begin, now)
  {
    var admitted := Admit(s, item).planned;
    var done := Records(r.executed);
    NothingDueLeft(s, item, clock, body, r);
    RanWereDue(r.executed, now, clock, body);
    SplitMembers(admitted, r.next.planned, done);
    forall x | x in admitted
      ensures x in r.next.planned || x in done
    {
      assert x in multiset(admitted);
    }
  }

  /** No early start. A run is stamped with the reading at which it started,
      and starts less than a millisecond before its begin; when both the
      begin and that reading are whole milliseconds, its delay is not
      negative. */
  lemma NoEarlyStart(s: Scheduler, item: Inbound, clock: nat -> Instant, body: Info -> Outcome, r: Poll)
    requires r == DoPoll(s, item, clock, body)
    ensures forall i :: 0 <= i < |r.executed| ==> r.executed[i].info.realBegin == clock(i)
    ensures forall i :: 0 <= i < |r.executed| ==> Delay(r.executed[i].info) > -NanosPerMilli
    ensures forall i :: 0 <= i < |r.executed| && WholeMillis(r.executed[i].info.rec.begin) && WholeMillis(clock(i))
                        ==> Delay(r.executed[i].info) >= 0
  {
    forall i | 0 <= i < |r.executed|
      ensures Delay(r.executed[i].info) > -NanosPerMilli
      ensures WholeMillis(r.executed[i].info.rec.begin) && WholeMillis(clock(i)) ==> Delay(r.executed[i].info) >= 0
    {
      DelayOfDueRun(r.executed[i].info);
    }
  }

  /** A record runs at most once, and records with the same begin run in
      the order they were admitted. */
  lemma TiesRunInAdmissionOrder(s: Scheduler, item: Inbound, clock: nat -> Instant, body: Info -> Outcome, r: Poll)
    requires Valid(s)
    requires r == DoPoll(s, item, clock, body)
    ensures DistinctOrders(Records(r.executed))
    ensures forall i, j :: 0 <= i < j < |r.executed| && r.executed[i].info.rec.begin == r.executed[j].info.rec.begin
                           ==> r.executed[i].info.rec.order < r.executed[j].info.rec.order
  {
    var a := Admit(s, item);
    var done := Records(r.executed);
    AdmitKeepsValid(s, item);
    SubBagKeepsOrders(a.planned, done, a.taskCounter);
    forall i, j | 0 <= i < j < |r.executed| && r.executed[i].info.rec.begin == r.executed[j].info.rec.begin
      ensures r.executed[i].info.rec.order < r.executed[j].info.rec.order
    {
      assert done[i].order != done[j].order;
      assert LessEq(r.executed[i].info.rec, r.executed[j].info.rec);
    }
  }

  /** Task isolation: the next state, the trace of records run and the
      timer armed are the same whether task bodies return or throw. */
  lemma DoPollIgnoresOutcomes(s: Scheduler, item: Inbound, clock: nat -> Instant, body1: Info -> Outcome, body2: Info -> Outcome)
    ensures DoPoll(s, item, clock, body1).next == DoPoll(s, item, clock, body2).next
    ensures DoPoll(s, item, clock, body1).timer == DoPoll(s, item, clock, body2).timer
    ensures SameRuns(DoPoll(s, item, clock, body1).executed, DoPoll(s, item, clock, body2).executed)
  {
    DrainIgnoresOutcomes(Admit(s, item).planned, clock, body1, body2, 0);
  }

  /** A call of `schedule` whose offer is accepted hands the activation an
      ordinary record; when the collection has room, that activation gives
      it the next admission number and plans or runs it. */
  lemma ScheduledRecordIsAdmitted(
    beginAt: Instant, task: Task, offer: Inbound -> bool,
    s: Scheduler, clock: nat -> Instant, body: Info -> Outcome, r: Poll)
    requires Schedule(beginAt, task, offer).result.Accepted?
    requires |s.planned| < s.plannedTasksLimit
    requires r == DoPoll(s, Schedule(beginAt, task, offer).offered, clock, body)
    ensures r.next.taskCounter == s.taskCounter + 1
    ensures TaskStruct(beginAt, task, s.taskCounter) in r.next.planned
            || TaskStruct(beginAt, task, s.taskCounter) in Records(r.executed)
  {
    var item := Schedule(beginAt, task, offer).offered;
    var rec := TaskStruct(beginAt, task, s.taskCounter);
    var a := Admit(s, item);
    assert rec in multiset(a.planned);
    SplitMembers(a.planned, r.next.planned, Records(r.executed));
    assert rec in a.planned;
  }
}
