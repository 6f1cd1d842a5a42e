/**
 The traversal the join is evidently meant to perform: step only the active
 lane, then move the active index past every exhausted lane without stepping
 it. `begin()` applies the same settling, so empty lanes anywhere (leading,
 interior or trailing) are passed over. With this advance the join yields the
 plain concatenation of all lanes, each through its extraction rule.

 Comparison and dereference are those of the cursor as written.
 */
module Corrected {
  import opened JoinIterator
  import opened Traversal

  /** Moves the active index to the first lane at or after it that is not
      exhausted, or to N when there is none; no position changes. */
  function Settle(c: Cursor): (r: Cursor)
    requires c.active <= |c.pairs|
    decreases |c.pairs| - c.active
    ensures r.pairs == c.pairs
    ensures c.active <= r.active <= |c.pairs|
    ensures forall k :: c.active <= k < r.active ==> c.pairs[k].cur == c.pairs[k].end
    ensures r.active < |c.pairs| ==> c.pairs[r.active].cur != c.pairs[r.active].end
  {
    if c.active < |c.pairs| && c.pairs[c.active].cur == c.pairs[c.active].end
    then Settle(c.(active := c.active + 1))
    else c
  }

  /** One step of the active lane, nothing else. */
  function StepActive(c: Cursor): (r: Cursor)
    requires c.active < |c.pairs| && c.pairs[c.active].cur < c.pairs[c.active].end
    ensures r.active == c.active && |r.pairs| == |c.pairs|
    ensures r.pairs[c.active] == Pair(c.pairs[c.active].cur + 1, c.pairs[c.active].end)
    ensures forall k :: 0 <= k < |c.pairs| && k != c.active ==> r.pairs[k] == c.pairs[k]
  {
    var a := c.active;
    c.(pairs := c.pairs[a := Pair(c.pairs[a].cur + 1, c.pairs[a].end)])
  }

  /** The corrected `operator++`: one step of the active lane only, then settle
      on the first lane at or after it that is not exhausted. */
  function SettledAdvance(c: Cursor): (r: Cursor)
    requires c.active < |c.pairs| && c.pairs[c.active].cur < c.pairs[c.active].end
    ensures |r.pairs| == |c.pairs|
    ensures c.active <= r.active <= |c.pairs|
    ensures r.pairs[c.active].cur == c.pairs[c.active].cur + 1
    ensures forall k :: 0 <= k < |c.pairs| && k != c.active ==> r.pairs[k] == c.pairs[k]
    ensures forall k :: 0 <= k < |c.pairs| ==> r.pairs[k].end == c.pairs[k].end
    ensures forall k :: c.active <= k < r.active ==> r.pairs[k].cur == r.pairs[k].end
    ensures r.active < |c.pairs| ==> r.pairs[r.active].cur != r.pairs[r.active].end
  {
    Settle(StepActive(c))
  }

  /** The corrected `begin()`: the cursor of `begin()`, settled. */
  function SettledBegin<E, Out>(lanes: seq<Lane<E, Out>>): (c: Cursor)
    ensures c.pairs == Begin(lanes).pairs
    ensures c.active <= |lanes|
    ensures forall k :: 0 <= k < c.active ==> |lanes[k].items| == 0
    ensures c.active < |lanes| ==> 0 < |lanes[c.active].items|
  {
    Settle(Begin(lanes))
  }

  /** Every lane from index k onwards, in order, each in full. */
  function Concat<E, Out>(lanes: seq<Lane<E, Out>>, k: nat): seq<Out>
    decreases |lanes| - k
  {
    if k >= |lanes| then [] else MapFrom(lanes[k], 0) + Concat(lanes, k + 1)
  }

  /** A consistent cursor whose active lane has not run past its end and whose
      later lanes are untouched. */
  predicate Ahead<E, Out>(lanes: seq<Lane<E, Out>>, c: Cursor)
  {
    && Consistent(lanes, c)
    && (c.active < |lanes| ==> c.pairs[c.active].cur <= c.pairs[c.active].end)
    && (forall k :: c.active < k < |lanes| ==> c.pairs[k].cur == 0)
  }

  /** The cursor state the corrected traversal keeps: in addition, the active
      lane (if any) is not exhausted. */
  predicate Settled<E, Out>(lanes: seq<Lane<E, Out>>, c: Cursor)
  {
    && Ahead(lanes, c)
    && (c.active < |lanes| ==> c.pairs[c.active].cur < c.pairs[c.active].end)
  }

  /** What is left to yield from a cursor. */
  function Pending<E, Out>(lanes: seq<Lane<E, Out>>, c: Cursor): seq<Out>
    requires Ahead(lanes, c)
  {
    if c.active == |lanes| then []
    else MapFrom(lanes[c.active], c.pairs[c.active].cur) + Concat(lanes, c.active + 1)
  }

  /** Settling passes only lanes with nothing left, so it keeps what is pending
      and reaches a settled cursor. */
  lemma {:induction false} SettleKeepsPending<E, Out>(lanes: seq<Lane<E, Out>>, c: Cursor)
    requires Ahead(lanes, c)
    decreases |lanes| - c.active
    ensures Settled(lanes, Settle(c))
    ensures Pending(lanes, Settle(c)) == Pending(lanes, c)
  {
    if c.active < |lanes| && c.pairs[c.active].cur == c.pairs[c.active].end {
      var d := c.(active := c.active + 1);
      assert MapFrom(lanes[c.active], c.pairs[c.active].cur) == [];
      if d.active < |lanes| {
        assert d.pairs[d.active].cur == 0;
      }
      SettleKeepsPending(lanes, d);
    }
  }

  lemma {:induction false} SettledBeginPending<E, Out>(lanes: seq<Lane<E, Out>>)
    ensures Settled(lanes, SettledBegin(lanes))
    ensures Pending(lanes, SettledBegin(lanes)) == Concat(lanes, 0)
  {
    var b := Begin(lanes);
    assert Ahead(lanes, b);
    SettleKeepsPending(lanes, b);
  }

  /** One corrected advance drops exactly the dereferenced element. */
  lemma {:induction false} SettledAdvancePending<E, Out>(lanes: seq<Lane<E, Out>>, c: Cursor)
    requires Settled(lanes, c) && c.active < |lanes|
    ensures Settled(lanes, SettledAdvance(c))
    ensures Pending(lanes, c) == [Deref(lanes, c).value] + Pending(lanes, SettledAdvance(c))
  {
    SettledAdvanceLeavesRest(lanes, c);
    PendingHead(lanes, c);
  }

  /** After one corrected advance, what is pending is the rest of the lane it
      was on and all later lanes. */
  lemma {:induction false} SettledAdvanceLeavesRest<E, Out>(lanes: seq<Lane<E, Out>>, c: Cursor)
    requires Settled(lanes, c) && c.active < |lanes|
    ensures Settled(lanes, SettledAdvance(c))
    ensures Pending(lanes, SettledAdvance(c))
         == MapFrom(lanes[c.active], c.pairs[c.active].cur + 1) + Concat(lanes, c.active + 1)
  {
    StepActiveAhead(lanes, c);
    SettleKeepsPending(lanes, StepActive(c));
  }

  lemma {:induction false} StepActiveAhead<E, Out>(lanes: seq<Lane<E, Out>>, c: Cursor)
    requires Settled(lanes, c) && c.active < |lanes|
    ensures Ahead(lanes, StepActive(c))
    ensures Pending(lanes, StepActive(c))
         == MapFrom(lanes[c.active], c.pairs[c.active].cur + 1) + Concat(lanes, c.active + 1)
  {
  }

  /** What is pending at a settled cursor that is not at the end starts with
      its dereference. */
  lemma {:induction false} PendingHead<E, Out>(lanes: seq<Lane<E, Out>>, c: Cursor)
    requires Settled(lanes, c) && c.active < |lanes|
    ensures Pending(lanes, c)
         == [Deref(lanes, c).value]
            + (MapFrom(lanes[c.active], c.pairs[c.active].cur + 1) + Concat(lanes, c.active + 1))
  {
    var a := c.active;
    assert MapFrom(lanes[a], c.pairs[a].cur)
        == [Deref(lanes, c).value] + MapFrom(lanes[a], c.pairs[a].cur + 1);
  }

  /** The range-for loop with the corrected advance. */
  function SettledWalk<E, Out>(lanes: seq<Lane<E, Out>>, c: Cursor): seq<Out>
    requires Settled(lanes, c)
    decreases |lanes| - c.active,
              if c.active < |lanes| then c.pairs[c.active].end - c.pairs[c.active].cur else 0
  {
    ConsistentComparedWithEnd(lanes, c);
    if !NotEqual(c, End(lanes)) then []
    else
      SettledAdvancePending(lanes, c);
      [Deref(lanes, c).value] + SettledWalk(lanes, SettledAdvance(c))
  }

  lemma {:induction false} SettledWalkYieldsPending<E, Out>(lanes: seq<Lane<E, Out>>, c: Cursor)
    requires Settled(lanes, c)
    decreases |lanes| - c.active,
              if c.active < |lanes| then c.pairs[c.active].end - c.pairs[c.active].cur else 0
    ensures SettledWalk(lanes, c) == Pending(lanes, c)
  {
    ConsistentComparedWithEnd(lanes, c);
    if c.active < |lanes| {
      SettledAdvancePending(lanes, c);
      SettledWalkYieldsPending(lanes, SettledAdvance(c));
    }
  }

  /** The whole join with the corrected advance and begin. */
  function SettledJoined<E, Out>(lanes: seq<Lane<E, Out>>): seq<Out>
  {
    SettledBeginPending(lanes);
    SettledWalk(lanes, SettledBegin(lanes))
  }

  /** The corrected join is the concatenation of all lanes, in lane order,
      each through its own extraction rule, for any lanes at all. */
  lemma {:induction false} SettledJoinedIsConcat<E, Out>(lanes: seq<Lane<E, Out>>)
    ensures SettledJoined(lanes) == Concat(lanes, 0)
  {
    SettledBeginPending(lanes);
    SettledWalkYieldsPending(lanes, SettledBegin(lanes));
  }

  lemma {:induction false} ConcatLength<E, Out>(lanes: seq<Lane<E, Out>>, k: nat)
    requires k <= |lanes|
    decreases |lanes| - k
    ensures |Concat(lanes, k)| == TotalFrom(lanes, k)
  {
    if k < |lanes| {
      ConcatLength(lanes, k + 1);
    }
  }

  /** The corrected join yields exactly as many elements as the lanes hold. */
  lemma {:induction false} SettledJoinedLength<E, Out>(lanes: seq<Lane<E, Out>>)
    ensures |SettledJoined(lanes)| == TotalFrom(lanes, 0)
  {
    SettledJoinedIsConcat(lanes);
    ConcatLength(lanes, 0);
  }
}
