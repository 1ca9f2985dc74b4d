/** Properties of an execution trace, and how each of them extends when one
    more run is put in front of a trace that already has it. */
module Trace {
  import opened Clock
  import opened Tasks

  /** The `i`-th entry of a trace that started after `k` runs was stamped
      with reading `k + i`, was due at that reading, and carries its body's
      outcome. */
  ghost predicate StampedWhenDue(ex: seq<Executed>, clock: nat -> Instant, body: Info -> Outcome, k: nat) {
    forall i :: 0 <= i < |ex| ==>
      && ex[i].info.realBegin == clock(k + i)
      && Due(ex[i].info.rec.begin, clock(k + i))
      && ex[i].outcome == body(ex[i].info)
  }

  /** A trace in nondecreasing `(begin, order)` order. */
  ghost predicate InDueOrder(ex: seq<Executed>) {
    forall i, j :: 0 <= i < j < |ex| ==> LessEq(ex[i].info.rec, ex[j].info.rec)
  }

  /** Every record of a trace precedes every record of `rest`. */
  ghost predicate RanBefore(ex: seq<Executed>, rest: seq<TaskStruct>) {
    forall i, x :: 0 <= i < |ex| && x in rest ==> LessEq(ex[i].info.rec, x)
  }

  lemma {:induction false} StampedCons(e: Executed, rest: seq<Executed>, clock: nat -> Instant, body: Info -> Outcome, k: nat)
    requires e.info.realBegin == clock(k) && Due(e.info.rec.begin, clock(k)) && e.outcome == body(e.info)
    requires StampedWhenDue(rest, clock, body, k + 1)
    ensures StampedWhenDue([e] + rest, clock, body, k)
  {
    var ex := [e] + rest;
    forall j | 0 < j < |ex|
      ensures ex[j].info.realBegin == clock(k + j)
      ensures Due(ex[j].info.rec.begin, clock(k + j))
      ensures ex[j].outcome == body(ex[j].info)
    {
      assert ex[j] == rest[j - 1];
      assert k + 1 + (j - 1) == k + j;
    }
  }

  lemma {:induction false} DueOrderCons(e: Executed, rest: seq<Executed>, left: seq<TaskStruct>)
    requires forall j :: 0 <= j < |rest| ==> LessEq(e.info.rec, rest[j].info.rec)
    requires forall x :: x in left ==> LessEq(e.info.rec, x)
    requires InDueOrder(rest) && RanBefore(rest, left)
    ensures InDueOrder([e] + rest) && RanBefore([e] + rest, left)
  {
    var ex := [e] + rest;
    forall i, j | 0 <= i < j < |ex|
      ensures LessEq(ex[i].info.rec, ex[j].info.rec)
    {
      assert ex[j] == rest[j - 1];
      if i > 0 {
        assert ex[i] == rest[i - 1];
      }
    }
    forall i, x | 0 <= i < |ex| && x in left
      ensures LessEq(ex[i].info.rec, x)
    {
      if i > 0 {
        assert ex[i] == rest[i - 1];
      }
    }
  }

  /** Two traces that ran the same records with the same stamps, whatever
      their outcomes. */
  ghost predicate SameRuns(ex1: seq<Executed>, ex2: seq<Executed>) {
    |ex1| == |ex2| && forall i :: 0 <= i < |ex1| ==> ex1[i].info == ex2[i].info
  }

  lemma SameRunsCons(e1: Executed, e2: Executed, rest1: seq<Executed>, rest2: seq<Executed>)
    requires e1.info == e2.info && SameRuns(rest1, rest2)
    ensures SameRuns([e1] + rest1, [e2] + rest2)
  {
    var ex1, ex2 := [e1] + rest1, [e2] + rest2;
    forall i | 0 < i < |ex1|
      ensures ex1[i].info == ex2[i].info
    {
      assert ex1[i] == rest1[i - 1] && ex2[i] == rest2[i - 1];
    }
  }
}
