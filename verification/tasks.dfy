/** Task records of the exact-date scheduler, their total order, and what a
    run of one of them leaves behind. */
module Tasks {
  import opened Clock

  /** The identity of a user task body; what the body does is supplied
      separately, as a function from its `Info` to an `Outcome`. */
  datatype Task = Task(id: nat)

  /** Whether a task body returned normally (`Ok`) or threw (`Fail`). */
  datatype Outcome = Ok | Fail

  /** A planned record: its requested begin, its body, and the admission
      number `order` it received when it entered the planned collection. */
  datatype TaskStruct = TaskStruct(begin: Instant, task: Task, order: nat)

  /** The `Task.Info` a body sees: the record, stamped with the reading of
      the clock at which it was started. */
  datatype Info = Info(rec: TaskStruct, realBegin: Instant)

  /** One entry of an execution trace. */
  datatype Executed = Executed(info: Info, outcome: Outcome)

  /** `a` strictly precedes `b`: earlier begin first, admission order among
      equal begins. */
  predicate Less(a: TaskStruct, b: TaskStruct) {
    a.begin < b.begin || (a.begin == b.begin && a.order < b.order)
  }

  predicate LessEq(a: TaskStruct, b: TaskStruct) {
    !Less(b, a)
  }

  /** The sign of `LocalDateTime.compareTo` (and of `Long.compare`). */
  function CompareInts(x: int, y: int): (c: int)
    ensures c < 0 <==> x < y
    ensures c == 0 <==> x == y
    ensures c > 0 <==> x > y
  {
    if x < y then -1 else if x == y then 0 else 1
  }

  /** `TaskStruct.compareTo`: compare begins, fall back to admission order. */
  function Compare(a: TaskStruct, b: TaskStruct): (c: int)
    ensures c < 0 <==> Less(a, b)
    ensures c > 0 <==> Less(b, a)
    ensures c == 0 <==> (a.begin == b.begin && a.order == b.order)
  {
    var cmp := CompareInts(a.begin, b.begin);
    if cmp != 0 then cmp else CompareInts(a.order, b.order)
  }

  /** Swapping the operands negates the comparison, as `Comparable` asks. */
  lemma CompareAntisymmetric(a: TaskStruct, b: TaskStruct)
    ensures Compare(a, b) == -Compare(b, a)
  {
  }

  /** No two records share an admission number. */
  predicate DistinctOrders(rs: seq<TaskStruct>) {
    forall i, j :: 0 <= i < j < |rs| ==> rs[i].order != rs[j].order
  }

  /** On records with distinct admission numbers, `Less` is a strict total
      order: irreflexive, transitive, and any two different positions are
      comparable. */
  lemma LessIsStrictTotalOrder(rs: seq<TaskStruct>)
    requires DistinctOrders(rs)
    ensures forall i :: 0 <= i < |rs| ==> !Less(rs[i], rs[i])
    ensures forall i, j, k ::
              0 <= i < |rs| && 0 <= j < |rs| && 0 <= k < |rs| && Less(rs[i], rs[j]) && Less(rs[j], rs[k])
              ==> Less(rs[i], rs[k])
    ensures forall i, j :: 0 <= i < |rs| && 0 <= j < |rs| && i != j ==>
                           Less(rs[i], rs[j]) || Less(rs[j], rs[i])
  {
    forall i, j | 0 <= i < |rs| && 0 <= j < |rs| && i != j
      ensures Less(rs[i], rs[j]) || Less(rs[j], rs[i])
    {
      if i < j {
        assert rs[i].order != rs[j].order;
      } else {
        assert rs[j].order != rs[i].order;
      }
    }
  }

  /** `Task.Info.delay`: how late the record started, in nanoseconds. */
  function Delay(info: Info): int {
    info.realBegin - info.rec.begin
  }

  /** A record run at a reading at which it was due starts less than a
      millisecond before its begin, and not before it when both instants
      are whole milliseconds. */
  lemma DelayOfDueRun(info: Info)
    requires Due(info.rec.begin, info.realBegin)
    ensures Delay(info) > -NanosPerMilli
    ensures WholeMillis(info.rec.begin) && WholeMillis(info.realBegin) ==> Delay(info) >= 0
  {
    if WholeMillis(info.rec.begin) && WholeMillis(info.realBegin) {
      DueWholeMillis(info.rec.begin, info.realBegin);
    }
  }

  /** `TaskStruct.runSafely`: the body's failure is caught and recorded, and
      control always comes back to the caller. That a failure changes
      nothing else the scheduler does is stated by `DrainIgnoresOutcomes`
      and `PollProperties.DoPollIgnoresOutcomes`. */
  function RunSafely(info: Info, body: Info -> Outcome): (e: Executed)
    ensures e.info == info
    ensures e.outcome == body(info)
  {
    Executed(info, body(info))
  }

  /** The records of a trace, in trace order. */
  function Records(ex: seq<Executed>): (rs: seq<TaskStruct>)
    ensures |rs| == |ex|
    ensures forall i :: 0 <= i < |ex| ==> rs[i] == ex[i].info.rec
  {
    if ex == [] then [] else [ex[0].info.rec] + Records(ex[1..])
  }

  lemma RecordsAppend(a: seq<Executed>, b: seq<Executed>)
    ensures Records(a + b) == Records(a) + Records(b)
  {
  }
}
