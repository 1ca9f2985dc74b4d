/** The scheduler's planned collection, modelled as a bag kept in a sequence
    with minimum extraction (the `PriorityQueue` operations `peek`, `poll`
    and `offer`), not as a heap. */
module PlannedQueue {
  import opened Tasks

  /** The position of a least record under the `(begin, order)` order; the
      first such position when several tie. */
  function IndexOfMin(q: seq<TaskStruct>): (i: nat)
    requires |q| > 0
    ensures i < |q|
    ensures forall j :: 0 <= j < |q| ==> LessEq(q[i], q[j])
  {
    if |q| == 1 then 0
    else
      var k := IndexOfMin(q[1..]);
      if Less(q[k + 1], q[0]) then k + 1 else 0
  }

  /** `peek`: a least record of a non-empty collection. */
  function Min(q: seq<TaskStruct>): (m: TaskStruct)
    requires |q| > 0
    ensures m in q
    ensures forall x :: x in q ==> LessEq(m, x)
  {
    q[IndexOfMin(q)]
  }

  /** The collection with the record at position `i` taken out; `poll` is
      this at the position `peek` found. */
  function RemoveAt(q: seq<TaskStruct>, i: nat): (r: seq<TaskStruct>)
    requires i < |q|
    ensures |r| == |q| - 1
    ensures multiset(r) == multiset(q) - multiset{q[i]}
    ensures forall j :: 0 <= j < i ==> r[j] == q[j]
    ensures forall j :: i <= j < |r| ==> r[j] == q[j + 1]
  {
    assert q == q[..i] + [q[i]] + q[i + 1..];
    q[..i] + q[i + 1..]
  }

  /** `offer`: the collection with one more record. */
  function Offer(q: seq<TaskStruct>, x: TaskStruct): (r: seq<TaskStruct>)
    ensures |r| == |q| + 1
    ensures multiset(r) == multiset(q) + multiset{x}
  {
    q + [x]
  }

  /** Every admission number in the collection is below `bound`. */
  predicate OrdersBelow(q: seq<TaskStruct>, bound: nat) {
    forall x :: x in q ==> x.order < bound
  }

  /** Offering a record with a fresh admission number keeps them distinct. */
  lemma {:induction false} OfferKeepsDistinct(q: seq<TaskStruct>, x: TaskStruct, bound: nat)
    requires DistinctOrders(q)
    requires OrdersBelow(q, bound)
    requires x.order == bound
    ensures DistinctOrders(Offer(q, x))
    ensures OrdersBelow(Offer(q, x), bound + 1)
  {
    var r := Offer(q, x);
    forall a, b | 0 <= a < b < |r|
      ensures r[a].order != r[b].order
    {
      if b == |q| {
        assert r[a] == q[a] && q[a] in q;
      } else {
        assert r[a] == q[a] && r[b] == q[b];
      }
    }
    forall y | y in r
      ensures y.order < bound + 1
    {
      if y != x {
        assert y in multiset(r);
        assert y in q;
      }
    }
  }

  /** Under distinct admission numbers no record occurs twice. */
  lemma {:induction false} DistinctAtMostOnce(q: seq<TaskStruct>, x: TaskStruct)
    requires DistinctOrders(q)
    ensures multiset(q)[x] <= 1
    decreases |q|
  {
    if |q| > 0 {
      var q' := q[1..];
      assert q == [q[0]] + q';
      assert DistinctOrders(q') by {
        forall a, b | 0 <= a < b < |q'|
          ensures q'[a].order != q'[b].order
        {
          assert q'[a] == q[a + 1] && q'[b] == q[b + 1];
        }
      }
      DistinctAtMostOnce(q', x);
      if q[0] == x {
        forall j | 0 <= j < |q'|
          ensures q'[j] != x
        {
          assert q[0].order != q[j + 1].order;
        }
      }
    }
  }

  /** A record at two positions occurs at least twice. */
  lemma TwoPositions(q: seq<TaskStruct>, a: nat, b: nat)
    requires a < b < |q| && q[a] == q[b]
    ensures multiset(q)[q[a]] >= 2
  {
    assert q == q[..b] + q[b..];
    assert q[a] == q[..b][a];
    assert q[b] == q[b..][0];
  }

  /** Taking records out of a collection keeps admission numbers distinct
      and below the same bound. */
  lemma {:induction false} SubBagKeepsOrders(q: seq<TaskStruct>, r: seq<TaskStruct>, bound: nat)
    requires multiset(r) <= multiset(q)
    ensures DistinctOrders(q) ==> DistinctOrders(r)
    ensures OrdersBelow(q, bound) ==> OrdersBelow(r, bound)
  {
    forall x | x in r
      ensures x in q
    {
      assert x in multiset(r);
    }
    if DistinctOrders(q) {
      forall a, b | 0 <= a < b < |r|
        ensures r[a].order != r[b].order
      {
        if r[a] == r[b] {
          TwoPositions(r, a, b);
          DistinctAtMostOnce(q, r[a]);
        } else {
          assert r[a] in q && r[b] in q;
          var pa :| 0 <= pa < |q| && q[pa] == r[a];
          var pb :| 0 <= pb < |q| && q[pb] == r[b];
          if pa < pb {
            assert q[pa].order != q[pb].order;
          } else {
            assert pb < pa;
            assert q[pb].order != q[pa].order;
          }
        }
      }
    }
  }

  /** The least record precedes every record left after taking it out. */
  lemma MinPrecedesRest(q: seq<TaskStruct>, i: nat)
    requires i < |q|
    requires forall j :: 0 <= j < |q| ==> LessEq(q[i], q[j])
    ensures forall x :: x in RemoveAt(q, i) ==> LessEq(q[i], x)
  {
    var q' := RemoveAt(q, i);
    forall x | x in q'
      ensures LessEq(q[i], x)
    {
      var j :| 0 <= j < |q'| && q'[j] == x;
      if j < i {
        assert q'[j] == q[j];
      } else {
        assert q'[j] == q[j + 1];
      }
    }
  }

  /** Every member of a part of a split bag is a member of the whole. */
  lemma SplitMembers(whole: seq<TaskStruct>, left: seq<TaskStruct>, right: seq<TaskStruct>)
    requires multiset(whole) == multiset(left) + multiset(right)
    ensures forall x :: x in left ==> x in whole
    ensures forall x :: x in right ==> x in whole
  {
    forall x | x in left
      ensures x in whole
    {
      assert x in multiset(left);
      assert x in multiset(whole);
    }
    forall x | x in right
      ensures x in whole
    {
      assert x in multiset(right);
      assert x in multiset(whole);
    }
  }

  /** Taking the record at `i` out and putting it back restores the bag. */
  lemma RemoveAtRestores(q: seq<TaskStruct>, i: nat)
    requires i < |q|
    ensures multiset(q) == multiset(RemoveAt(q, i)) + multiset{q[i]}
  {
    assert q[i] in multiset(q);
  }
}
