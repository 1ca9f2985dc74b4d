# Exact-date scheduler, modelled in Dafny

This project models the serialized core of `ExactDateScheduler`. The
scheduler runs user tasks at requested wall-clock times. Callers hand a
record (begin time, task) to `schedule`. That call succeeds or is refused
depending on whether a bounded inbound queue accepts the record. The
scheduler registers `doPoll` as the consumer of that queue
(`Enqueuer.create(c, this::doPoll)`), and the enqueuer's driver runs it,
never two activations at once. The model assumes that every activation
dequeues exactly one inbound item; when the driver activates `doPoll`, and
whether it ever does so with the queue empty, is decided by code that is
not part of this model.
Each activation has two phases:

- **Admission.** It takes the one dequeued item. An ordinary record enters
  the planned collection if there is room. It gets the next admission
  number (`order`), and the counter moves on. A timer's timeout marker
  adds nothing.
- **Drain loop.** It peeks the least planned record under the order
  "earlier begin first, lower admission number among equal begins". If
  nothing is planned, it stops with poll timeout 0 and arms no timer. If
  the least record is still a positive number of milliseconds away, it
  stops and arms a one-shot timer for that delay. Otherwise it takes the
  record out, stamps it with the current reading, and runs it. A throw from
  the task is caught and the loop goes on.

The model is functional:

- **State.** The scheduler state is an immutable datatype. The planned
  priority queue is a sequence with least-element extraction.
- **Clock.** The clock is a function from loop iteration to reading, in
  nanoseconds. Reading `k` is the one the loop takes after `k` runs.
- **Task bodies.** Their behaviour is a function from the `Task.Info` they
  receive to `Ok` or `Fail`, where `Fail` means "threw".
- **Step.** One activation is `DoPoll`. It returns the next state, the
  trace of records it ran, and the delay of the timer it armed, if any.
- **Loop form.** `PollLoop.DoPollLoop` is the same activation written as
  the Java `for (;;)` loop. It is proved equal to `DoPoll`.
- **Life of a scheduler.** `History.RunPolls` chains activations and proves
  what holds across all of them.

Files:

- `clock.dfy`: readings, `Duration.toMillis`, and the loop's due test.
- `tasks.dfy`: records, `compareTo`, `runSafely`, `Task.Info.delay`.
- `planned_queue.dfy`: the planned collection: `peek`, `poll`, `offer`.
- `trace.dfy`: properties of execution traces.
- `scheduler.dfy`: admission, the drain loop, `doPoll`, `schedule`.
- `poll_properties.dfy`: what one activation guarantees.
- `poll_loop.dfy`: the imperative loop.
- `history.dfy`: guarantees across many activations.

### Early starts

From a scheduler of exact dates one would expect a task never to start
before its begin (`realBegin >= begin`). The code instead runs a record when
`Duration.between(now, begin).toMillis()` is not positive. `toMillis`
drops the sub-millisecond part, so the test holds exactly when less than
one millisecond is left (`Clock.DueIff`). With nanosecond readings, a
record can therefore start up to just under a millisecond early. The model
follows the code:

- It proves `delay() > -1 ms` for every run.
- It proves `delay() >= 0` when the begin and the reading are whole
  milliseconds (`Tasks.DelayOfDueRun`, `PollProperties.NoEarlyStart`).

The same millisecond test is unaffected by which `toMillis` rounding the
JDK uses. Java 8 floors and later JDKs truncate toward zero. The two
agree on whether a gap is positive, and on its value when it is.

Due order holds inside one activation. Across activations it cannot: a
record admitted after a later-begin record has already run will run after
that record. `History.RunPolls` therefore stamps every run with the
admission counter as the activation that ran it left it. Records admitted
by that activation or earlier have numbers below the stamp; records
admitted by a later activation have numbers at or above it. Over the whole
life of a scheduler (`History.LifetimeOrder`):

- Every record ran in the activation that admitted it or in a later one.
- A record `y` runs after a record `x` that it precedes only if `y` was
  admitted by an activation later than the one that ran `x`.
- Hence a record runs after one it precedes only if it was admitted later,
  records with equal begins run in admission order, and no record runs
  twice.

## Model

| member | source | states |
|---|---|---|
| `Clock.ToMillis` | src/main/java/github/jcext/applications/ExactDateScheduler.java:174 | the millisecond count of a nanosecond gap, truncated toward zero: bounded by the gap from below and above for either sign |
| `Clock.DueIff` | src/main/java/github/jcext/applications/ExactDateScheduler.java:174-175 | the loop's test "truncated millisecond gap to the begin is not positive" holds exactly when less than one millisecond is left before the begin |
| `Clock.DueWholeMillis` | src/main/java/github/jcext/applications/ExactDateScheduler.java:174-175 | for whole-millisecond instants the loop's test is exactly `begin <= now` |
| `Tasks.CompareInts` | src/main/java/github/jcext/applications/ExactDateScheduler.java:112-116 | the sign of `compareTo`/`Long.compare` is negative, zero or positive exactly when the first operand is smaller, equal or larger |
| `Tasks.Compare` | src/main/java/github/jcext/applications/ExactDateScheduler.java:111-117 | `compareTo` is negative exactly when the first record has the earlier begin, or the same begin and the lower admission number; positive in the mirror case; zero exactly when begin and number coincide |
| `Tasks.CompareAntisymmetric` | src/main/java/github/jcext/applications/ExactDateScheduler.java:111-117 | swapping the operands negates the comparison |
| `Tasks.LessIsStrictTotalOrder` | src/main/java/github/jcext/applications/ExactDateScheduler.java:111-117 | on records with distinct admission numbers the order is irreflexive, transitive and total, so the least planned record is unique |
| `Tasks.DelayOfDueRun` | src/main/java/github/jcext/applications/ExactDateScheduler.java:32-34 | `delay()` of a record started while due is above minus one millisecond, and not negative for whole-millisecond instants |
| `PlannedQueue.IndexOfMin` | src/main/java/github/jcext/applications/ExactDateScheduler.java:167 | `peek` finds a position whose record precedes or equals every planned record |
| `PlannedQueue.Min` | src/main/java/github/jcext/applications/ExactDateScheduler.java:167 | the peeked record is planned and no planned record precedes it |
| `PlannedQueue.RemoveAt` | src/main/java/github/jcext/applications/ExactDateScheduler.java:180 | `poll` of the peeked record: the collection keeps every other record in place and loses exactly one copy of that one |
| `PlannedQueue.Offer` | src/main/java/github/jcext/applications/ExactDateScheduler.java:159 | `offer` adds exactly one copy of the record |
| `PlannedQueue.OfferKeepsDistinct` | src/main/java/github/jcext/applications/ExactDateScheduler.java:158-159 | offering a record numbered with the counter keeps admission numbers distinct and below the advanced counter |
| `ExactDateScheduler.Create` | src/main/java/github/jcext/applications/ExactDateScheduler.java:144-146 | a new scheduler plans nothing, starts its counter at zero, and satisfies the capacity invariant when the limit is not negative |
| `ExactDateScheduler.Admit` | src/main/java/github/jcext/applications/ExactDateScheduler.java:153-163 | an ordinary record is admitted exactly when fewer than `plannedTasksLimit` records are planned, with the counter as its number and the counter advanced by one; a timeout marker or a record meeting a full collection leaves the state unchanged; the capacity invariant is preserved |
| `ExactDateScheduler.AdmitKeepsValid` | src/main/java/github/jcext/applications/ExactDateScheduler.java:156-159 | admission keeps planned admission numbers distinct and below the counter |
| `ExactDateScheduler.Drain` | src/main/java/github/jcext/applications/ExactDateScheduler.java:166-184 | the loop ends either with nothing planned, poll timeout 0 and no timer, or with records planned, a positive poll timeout and exactly one timer armed for it |
| `ExactDateScheduler.DrainStopsAtMin` | src/main/java/github/jcext/applications/ExactDateScheduler.java:173-178 | when records are left, the armed delay is the truncated gap from the last reading to the least record left |
| `ExactDateScheduler.DrainConserves` | src/main/java/github/jcext/applications/ExactDateScheduler.java:180-183 | the loop only removes records, and the records removed are exactly the records run |
| `ExactDateScheduler.DrainRunsOnlyDue` | src/main/java/github/jcext/applications/ExactDateScheduler.java:173-183 | the `i`-th run is stamped with the `i`-th reading, was due at it, and carries its body's outcome |
| `ExactDateScheduler.DrainInDueOrder` | src/main/java/github/jcext/applications/ExactDateScheduler.java:167-183 | records run in nondecreasing `(begin, order)`, and each precedes every record left planned |
| `ExactDateScheduler.DrainIgnoresOutcomes` | src/main/java/github/jcext/applications/ExactDateScheduler.java:180-184 | what the loop removes, stamps and leaves, and the timer it arms, do not depend on whether bodies throw |
| `ExactDateScheduler.DoPoll` | src/main/java/github/jcext/applications/ExactDateScheduler.java:152-185 | an activation changes the counter only by admission and never the limit; it keeps the capacity invariant and distinct numbers; the records it removes are exactly the ones it runs; every run was due and stamped with its reading; runs come in due order ahead of what is left; it ends idle with no timer, or with one timer for the positive gap to the least record left, which is not due |
| `ExactDateScheduler.Schedule` | src/main/java/github/jcext/applications/ExactDateScheduler.java:60-66 | `schedule` offers an ordinary record with the given begin and task, and throws `RejectedExecutionException` with the "flooded" message exactly when the offer is refused |
| `PollProperties.NothingDueLeft` | src/main/java/github/jcext/applications/ExactDateScheduler.java:173-178 | no record left planned is due at the activation's last reading |
| `PollProperties.NothingLeftWasDue` | src/main/java/github/jcext/applications/ExactDateScheduler.java:166-178 | with a clock that never goes back, no record left planned was due at any reading the activation took |
| `PollProperties.RunsExactlyTheDue` | src/main/java/github/jcext/applications/ExactDateScheduler.java:166-184 | against a fixed reading, an admitted record is run exactly when it is due, and stays planned exactly when it is not |
| `PollProperties.NoEarlyStart` | src/main/java/github/jcext/applications/ExactDateScheduler.java:173-182 | every run's `realBegin` is its own reading, its delay is above minus one millisecond, and not negative for whole-millisecond instants |
| `PollProperties.TiesRunInAdmissionOrder` | src/main/java/github/jcext/applications/ExactDateScheduler.java:166-183 | within one activation no record runs twice, and records with equal begins run in admission order |
| `PollProperties.DoPollIgnoresOutcomes` | src/main/java/github/jcext/applications/ExactDateScheduler.java:119-125 | `runSafely` isolates the scheduler from its tasks: the next state, the records run with their stamps, and the timer are the same whether bodies return or throw |
| `PollProperties.ScheduledRecordIsAdmitted` | src/main/java/github/jcext/applications/ExactDateScheduler.java:154-159 | a record whose `schedule` call succeeded, reaching a collection with room, gets the counter as its number and is either planned or run by that activation |
| `PollLoop.DoPollLoop` | src/main/java/github/jcext/applications/ExactDateScheduler.java:152-185 | the imperative `for (;;)` loop computes exactly the activation `DoPoll` defines |
| `History.RunPolls` | src/main/java/github/jcext/applications/ExactDateScheduler.java:157-159 | a sequence of activations never changes the limit, never lowers the counter, and keeps the capacity invariant and distinct numbers; each run's stamp is the counter its activation left, so stamps never decrease and lie between the counters at the start and the end |
| `History.PollKeepsHistory` | src/main/java/github/jcext/applications/ExactDateScheduler.java:152-185 | one activation keeps the cross-activation invariant: every record run was admitted by its activation or earlier, and a record, run or planned, precedes an earlier run only if admitted by a later activation than the one that ran it |
| `History.RunKeepsHistory` | src/main/java/github/jcext/applications/ExactDateScheduler.java:152-185 | every sequence of activations keeps that invariant |
| `History.LifetimeInv` | src/main/java/github/jcext/applications/ExactDateScheduler.java:144-185 | from a new scheduler, the cross-activation invariant holds after any sequence of activations |
| `History.LifetimeOrder` | src/main/java/github/jcext/applications/ExactDateScheduler.java:152-185 | over a scheduler's whole life the capacity is never exceeded; every record runs in the activation that admitted it or later; a record runs after one it precedes only if it was admitted by an activation later than the one that ran the other; hence no record runs twice and records with equal begins run in admission order |

## Left out

- The `Enqueuer` inbound queue, the enqueuer's driver that activates `doPoll`, and the `Timer` are not part of this model. They are concurrent and their code is not shown. The queue's `offer` is a parameter of `Schedule`. The timer is the delay `DoPoll` returns, and its callback is the `Tick` item.
- `Agent.java` is not part of this model. It is a separate state-holding entity built on the same enqueuer machinery, and the scheduler does not call it.
- The `schedule(LocalDateTime, Runnable)` overload and `Task.fromRunnable` (lines 39-41, 68-72) are left out. They only wrap a `Runnable` as a task and call the modelled `schedule`.
- `schedule(LocalDateTime, Callable)` and `asRunnable` (lines 74-97) are left out. They complete a future on another executor, which is outside the serialized core.
- The null checks of `schedule` (lines 61-62) are left out. The model has no null values.
- A null result of `inboundQueue.poll()` (line 154) is left out. The model gives every activation exactly one dequeued item. When the enqueuer activates `doPoll` is decided by code that is not part of this model.
- Logging (lines 123 and 161) is left out, since it has no effect on state.
- `LocalDateTime.now()` is left out. It becomes the `clock` parameter, read once per loop iteration.
- `PriorityQueue` is modelled as a sequence with least-element extraction, not a heap. Under distinct admission numbers the least record is unique (`Tasks.LessIsStrictTotalOrder`), so which of several equal elements a heap returns never arises.
- The `assert ignored == task` on line 181 is not modelled as a check. It holds by construction, since the model removes the very record it peeked.
- `taskCounter` is a Java `long`. Its wrap-around after 2^63 admissions is not modelled; the counter is an unbounded `nat`.
- The `ArithmeticException` that `Duration.toMillis` throws for gaps beyond the `long` range of milliseconds is not modelled.
- Intermediate values of the `pollTimeout` field are not modelled. The loop writes a non-positive value each time it runs a record, and that value is overwritten before the activation returns; only the final value is kept.
- Shutdown is left out. The source marks it as not implemented (line 20).
- `PollProperties.NoEarlyStart`: proves `delay() >= 0` only when the begin and the reading are whole milliseconds, and otherwise `delay() > -1 ms`. One would expect `realBegin >= begin` always; the code's truncating millisecond test allows a sub-millisecond early start, so that is not promised.
