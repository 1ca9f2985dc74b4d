/** A scheduler's life as a sequence of activations, and what holds of
    everything it has run so far.

    Ordering across activations is weaker than ordering inside one: a
    record admitted after a later-begin record already ran is run after
    it. Every run is therefore stamped with the admission counter as the
    activation that ran it left it: records admitted by that activation or
    earlier carry numbers below the stamp, records admitted by a later one
    carry numbers at or above it. What holds over the whole life is that a
    record only ever runs after one it precedes when it was admitted by an
    activation later than the one that ran the other; so records with
    equal begins run in admission order, and no record runs twice. */
module History {
  import opened Clock
  import opened Tasks
  import opened PlannedQueue
  import opened Trace
  import opened ExactDateScheduler

  /** One activation: the inbound item it dequeued and the readings its
      loop will take. */
  datatype Activation = Activation(item: Inbound, clock: nat -> Instant)

  /** The state after a sequence of activations, the trace of every record
      run along the way in run order, and for each run the admission
      counter as the activation that ran it left it. */
  datatype Run = Run(final: Scheduler, history: seq<Executed>, stamps: seq<nat>)

  /** `n` copies of the counter `c`: the stamps of the runs of one
      activation. */
  function Stamps(n: nat, c: nat): (st: seq<nat>)
    ensures |st| == n
    ensures forall k :: 0 <= k < n ==> st[k] == c
  {
    seq(n, _ => c)
  }

  /** Stamps never decrease along a run, and lie between the counters at
      its start and at its end. */
  ghost predicate StampsBetween(st: seq<nat>, lo: nat, hi: nat) {
    && (forall k :: 0 <= k < |st| ==> lo <= st[k] <= hi)
    && (forall i, j :: 0 <= i < j < |st| ==> st[i] <= st[j])
  }

  lemma {:induction false} StampsCons(n: nat, c: nat, rest: seq<nat>, lo: nat, hi: nat)
    requires lo <= c
    requires StampsBetween(rest, c, hi)
    requires n > 0 ==> c <= hi
    ensures StampsBetween(Stamps(n, c) + rest, lo, hi)
  {
    var st := Stamps(n, c) + rest;
    forall i, j | 0 <= i < j < |st|
      ensures st[i] <= st[j]
    {
      if j < n {
      } else if i < n {
        assert st[j] == rest[j - n];
      } else {
        assert st[i] == rest[i - n] && st[j] == rest[j - n];
      }
    }
    forall k | 0 <= k < |st|
      ensures lo <= st[k] <= hi
    {
      if k >= n {
        assert st[k] == rest[k - n];
      }
    }
  }

  /** The activations `acts`, one after the other, from state `s`. */
  function RunPolls(s: Scheduler, acts: seq<Activation>, body: Info -> Outcome): (run: Run)
    decreases |acts|
    ensures run.final.plannedTasksLimit == s.plannedTasksLimit
    ensures run.final.taskCounter >= s.taskCounter
    ensures |run.stamps| == |run.history|
    ensures StampsBetween(run.stamps, s.taskCounter, run.final.taskCounter)
    ensures WithinLimit(s) ==> WithinLimit(run.final)
    ensures Valid(s) ==> Valid(run.final)
  {
    if acts == [] then
      Run(s, [], [])
    else
      var p := DoPoll(s, acts[0].item, acts[0].clock, body);
      var rest := RunPolls(p.next, acts[1..], body);
      StampsCons(|p.executed|, p.next.taskCounter, rest.stamps, s.taskCounter, rest.final.taskCounter);
      Run(rest.final, p.executed + rest.history, Stamps(|p.executed|, p.next.taskCounter) + rest.stamps)
  }

  /** Every record was admitted by the activation that ran it, or earlier:
      its number is below its stamp. */
  ghost predicate AdmittedBeforeItRan(h: seq<TaskStruct>, st: seq<nat>) {
    |st| == |h| && forall i :: 0 <= i < |h| ==> h[i].order < st[i]
  }

  /** A record ran after a record it precedes only if it was admitted by an
      activation later than the one that ran the other: its number is at or
      above the other's stamp. */
  ghost predicate LateOnlyIfAdmittedAfterRun(h: seq<TaskStruct>, st: seq<nat>) {
    |st| == |h| && forall i, j :: 0 <= i < j < |h| && Less(h[j], h[i]) ==> st[i] <= h[j].order
  }

  /** A planned record that precedes a record already run was admitted by
      an activation later than the one that ran it. */
  ghost predicate PlannedAdmittedAfterRun(h: seq<TaskStruct>, st: seq<nat>, planned: seq<TaskStruct>) {
    |st| == |h| && forall i, x :: 0 <= i < |h| && x in planned && Less(x, h[i]) ==> st[i] <= x.order
  }

  /** What holds between the records run so far `h`, their stamps `st`, the
      planned records and the admission counter. */
  ghost predicate HistoryInv(h: seq<TaskStruct>, st: seq<nat>, planned: seq<TaskStruct>, counter: nat) {
    && OrdersBelow(h + planned, counter)
    && DistinctOrders(h + planned)
    && (forall i :: 0 <= i < |st| ==> st[i] <= counter)
    && AdmittedBeforeItRan(h, st)
    && LateOnlyIfAdmittedAfterRun(h, st)
    && PlannedAdmittedAfterRun(h, st, planned)
  }

  /** Admission keeps the invariant: the admitted record has a fresh
      number at or above every number and every stamp seen so far. */
  lemma {:induction false} AdmitKeepsHistory(h: seq<TaskStruct>, st: seq<nat>, s: Scheduler, item: Inbound)
    requires HistoryInv(h, st, s.planned, s.taskCounter)
    ensures HistoryInv(h, st, Admit(s, item).planned, Admit(s, item).taskCounter)
  {
    var a := Admit(s, item);
    if Admits(s, item) {
      var rec := TaskStruct(item.begin, item.task, s.taskCounter);
      OfferKeepsDistinct(h + s.planned, rec, s.taskCounter);
      assert multiset(h + a.planned) == multiset(Offer(h + s.planned, rec));
      SubBagKeepsOrders(Offer(h + s.planned, rec), h + a.planned, a.taskCounter);
      forall i, x | 0 <= i < |h| && x in a.planned && Less(x, h[i])
        ensures st[i] <= x.order
      {
        assert x in multiset(a.planned);
        if x != rec {
          assert x in s.planned;
        }
      }
    }
  }

  /** Moving records from the collection to the history keeps the
      admission numbers of all records seen distinct and below the counter. */
  lemma {:induction false} MoveKeepsNumbers(h: seq<TaskStruct>, admitted: seq<TaskStruct>, counter: nat, done: seq<TaskStruct>, left: seq<TaskStruct>)
    requires OrdersBelow(h + admitted, counter) && DistinctOrders(h + admitted)
    requires multiset(admitted) == multiset(left) + multiset(done)
    ensures OrdersBelow(h + done + left, counter) && DistinctOrders(h + done + left)
  {
    assert multiset(h + done + left) == multiset(h + admitted);
    SubBagKeepsOrders(h + admitted, h + done + left, counter);
  }

  /** Stamping the records just run, all taken from the collection, with
      the current counter keeps every stamp at most the counter and above
      the number of its record. */
  lemma {:induction false} AppendKeepsStamps(h: seq<TaskStruct>, st: seq<nat>, admitted: seq<TaskStruct>, counter: nat, done: seq<TaskStruct>)
    requires OrdersBelow(h + admitted, counter)
    requires forall i :: 0 <= i < |st| ==> st[i] <= counter
    requires AdmittedBeforeItRan(h, st)
    requires forall x :: x in done ==> x in admitted
    ensures forall i :: 0 <= i < |st + Stamps(|done|, counter)| ==> (st + Stamps(|done|, counter))[i] <= counter
    ensures AdmittedBeforeItRan(h + done, st + Stamps(|done|, counter))
  {
    var h' := h + done;
    var st' := st + Stamps(|done|, counter);
    forall i | 0 <= i < |h'|
      ensures h'[i].order < st'[i]
    {
      if i >= |h| {
        assert h'[i] == done[i - |h|] && done[i - |h|] in done;
        assert h'[i] in h + admitted;
      }
    }
  }

  /** Appending a trace run in due order, from records that were planned,
      keeps an overtaking run tied to an admission after the overtaken run. */
  lemma {:induction false} AppendKeepsLateness(h: seq<TaskStruct>, st: seq<nat>, admitted: seq<TaskStruct>, ex: seq<Executed>, counter: nat)
    requires LateOnlyIfAdmittedAfterRun(h, st) && PlannedAdmittedAfterRun(h, st, admitted)
    requires forall x :: x in Records(ex) ==> x in admitted
    requires InDueOrder(ex)
    ensures LateOnlyIfAdmittedAfterRun(h + Records(ex), st + Stamps(|ex|, counter))
  {
    var done := Records(ex);
    var h' := h + done;
    var st' := st + Stamps(|ex|, counter);
    forall i, j | 0 <= i < j < |h'| && Less(h'[j], h'[i])
      ensures st'[i] <= h'[j].order
    {
      if j >= |h| {
        assert h'[j] == done[j - |h|] && done[j - |h|] in done;
      }
    }
  }

  /** Records left planned after a drain precede no record run before the
      drain unless admitted after it, and precede none of the records the
      drain ran. */
  lemma {:induction false} LeftKeepsLateness(h: seq<TaskStruct>, st: seq<nat>, admitted: seq<TaskStruct>, ex: seq<Executed>, left: seq<TaskStruct>, counter: nat)
    requires PlannedAdmittedAfterRun(h, st, admitted)
    requires forall x :: x in left ==> x in admitted
    requires RanBefore(ex, left)
    ensures PlannedAdmittedAfterRun(h + Records(ex), st + Stamps(|ex|, counter), left)
  {
    var done := Records(ex);
    var h' := h + done;
    var st' := st + Stamps(|ex|, counter);
    forall i, x | 0 <= i < |h'| && x in left && Less(x, h'[i])
      ensures st'[i] <= x.order
    {
    }
  }

  /** The drain loop keeps the invariant: it moves records from the
      collection to the end of the history, stamped with the counter, in
      due order and ahead of everything it leaves. */
  lemma {:induction false} DrainKeepsHistory(
    h: seq<TaskStruct>, st: seq<nat>, admitted: seq<TaskStruct>, counter: nat, ex: seq<Executed>, left: seq<TaskStruct>)
    requires HistoryInv(h, st, admitted, counter)
    requires multiset(admitted) == multiset(left) + multiset(Records(ex))
    requires InDueOrder(ex) && RanBefore(ex, left)
    ensures HistoryInv(h + Records(ex), st + Stamps(|ex|, counter), left, counter)
  {
    var done := Records(ex);
    MoveKeepsNumbers(h, admitted, counter, done, left);
    SplitMembers(admitted, left, done);
    AppendKeepsStamps(h, st, admitted, counter, done);
    AppendKeepsLateness(h, st, admitted, ex, counter);
    LeftKeepsLateness(h, st, admitted, ex, left, counter);
  }

  /** One activation keeps the invariant. */
  lemma {:induction false} PollKeepsHistory(
    h: seq<TaskStruct>, st: seq<nat>, s: Scheduler, item: Inbound, clock: nat -> Instant, body: Info -> Outcome, r: Poll)
    requires HistoryInv(h, st, s.planned, s.taskCounter)
    requires r == DoPoll(s, item, clock, body)
    ensures HistoryInv(h + Records(r.executed), st + Stamps(|r.executed|, r.next.taskCounter),
                       r.next.planned, r.next.taskCounter)
  {
    var a := Admit(s, item);
    AdmitKeepsHistory(h, st, s, item);
    DrainKeepsHistory(h, st, a.planned, a.taskCounter, r.executed, r.next.planned);
  }

  lemma {:induction false} HistoryConcat(h: seq<TaskStruct>, ex1: seq<Executed>, ex2: seq<Executed>)
    ensures h + Records(ex1 + ex2) == (h + Records(ex1)) + Records(ex2)
  {
    RecordsAppend(ex1, ex2);
  }

  lemma {:induction false} StampsConcat(st: seq<nat>, st1: seq<nat>, st2: seq<nat>)
    ensures st + (st1 + st2) == (st + st1) + st2
  {
  }

  /** Every run of activations keeps the invariant. */
  lemma {:induction false} RunKeepsHistory(h: seq<TaskStruct>, st: seq<nat>, s: Scheduler, acts: seq<Activation>, body: Info -> Outcome, run: Run)
    requires HistoryInv(h, st, s.planned, s.taskCounter)
    requires run == RunPolls(s, acts, body)
    decreases |acts|
    ensures HistoryInv(h + Records(run.history), st + run.stamps, run.final.planned, run.final.taskCounter)
  {
    if acts == [] {
      assert h + Records([]) == h && st + [] == st;
    } else {
      var p := DoPoll(s, acts[0].item, acts[0].clock, body);
      var rest := RunPolls(p.next, acts[1..], body);
      var st1 := Stamps(|p.executed|, p.next.taskCounter);
      PollKeepsHistory(h, st, s, acts[0].item, acts[0].clock, body, p);
      RunKeepsHistory(h + Records(p.executed), st + st1, p.next, acts[1..], body, rest);
      HistoryConcat(h, p.executed, rest.history);
      StampsConcat(st, st1, rest.stamps);
    }
  }

  /** A record ran after a record it precedes only if it was admitted
      later. */
  ghost predicate LateOnlyIfAdmittedLater(h: seq<TaskStruct>) {
    forall i, j :: 0 <= i < j < |h| && Less(h[j], h[i]) ==> h[i].order < h[j].order
  }

  /** Records with equal begins appear in admission order. */
  ghost predicate TiesInAdmissionOrder(h: seq<TaskStruct>) {
    forall i, j :: 0 <= i < j < |h| && h[i].begin == h[j].begin ==> h[i].order < h[j].order
  }

  /** What the invariant says about the history alone: no record in it
      twice, a record runs after one it precedes only if admitted later,
      and equal begins in admission order. */
  lemma {:induction false} HistoryInvOrders(h: seq<TaskStruct>, st: seq<nat>, planned: seq<TaskStruct>, counter: nat)
    requires HistoryInv(h, st, planned, counter)
    ensures DistinctOrders(h)
    ensures LateOnlyIfAdmittedLater(h)
    ensures TiesInAdmissionOrder(h)
  {
    var all := h + planned;
    forall i, j | 0 <= i < j < |h|
      ensures h[i].order != h[j].order
    {
      assert all[i] == h[i] && all[j] == h[j];
    }
    forall i, j | 0 <= i < j < |h| && Less(h[j], h[i])
      ensures h[i].order < h[j].order
    {
      assert h[i].order < st[i] <= h[j].order;
    }
    forall i, j | 0 <= i < j < |h| && h[i].begin == h[j].begin
      ensures h[i].order < h[j].order
    {
      assert h[i].order != h[j].order;
    }
  }

  /** A fresh scheduler starts with an empty history, so the invariant
      holds of everything a run of activations does. */
  lemma {:induction false} LifetimeInv(limit: int, acts: seq<Activation>, body: Info -> Outcome, run: Run)
    requires run == RunPolls(Create(limit), acts, body)
    ensures HistoryInv(Records(run.history), run.stamps, run.final.planned, run.final.taskCounter)
  {
    assert HistoryInv([], [], [], 0);
    RunKeepsHistory([], [], Create(limit), acts, body, run);
    assert [] + Records(run.history) == Records(run.history) && [] + run.stamps == run.stamps;
  }

  /** Over the whole life of a scheduler created with capacity `limit`: the
      capacity is never exceeded; every record ran in the activation that
      admitted it or a later one; a record runs after one it precedes only
      if it was admitted by an activation later than the one that ran the
      other; hence no record runs twice, and records with equal begins run
      in admission order. */
  lemma {:induction false} LifetimeOrder(limit: int, acts: seq<Activation>, body: Info -> Outcome, run: Run)
    requires run == RunPolls(Create(limit), acts, body)
    ensures limit >= 0 ==> WithinLimit(run.final)
    ensures AdmittedBeforeItRan(Records(run.history), run.stamps)
    ensures LateOnlyIfAdmittedAfterRun(Records(run.history), run.stamps)
    ensures DistinctOrders(Records(run.history))
    ensures LateOnlyIfAdmittedLater(Records(run.history))
    ensures TiesInAdmissionOrder(Records(run.history))
  {
    LifetimeInv(limit, acts, body, run);
    HistoryInvOrders(Records(run.history), run.stamps, run.final.planned, run.final.taskCounter);
  }
}
