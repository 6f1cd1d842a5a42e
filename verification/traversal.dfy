/**
 What a range-for over the join yields when it is driven exactly as written:
 start at `Begin`, and while the cursor is `NotEqual` to `End`, dereference
 it and advance it.

 Because `operator++` cascades into the next lane when it exhausts one, the
 traversal yields lane 0 in full followed by every later lane without its
 first element. The traversal is defined only when no lane is empty.
 */
module Traversal {
  import opened JoinIterator

  /** The extractions of a lane's elements from position `from` onwards. */
  function MapFrom<E, Out>(lane: Lane<E, Out>, from: nat): (r: seq<Out>)
    decreases |lane.items| - from
    ensures |r| == if from <= |lane.items| then |lane.items| - from else 0
    ensures forall k :: 0 <= k < |r| ==> r[k] == lane.rule(lane.items[from + k])
  {
    if from >= |lane.items| then []
    else [lane.rule(lane.items[from])] + MapFrom(lane, from + 1)
  }

  /** Lanes k..N-1, each without its first element. */
  function Tails<E, Out>(lanes: seq<Lane<E, Out>>, k: nat): seq<Out>
    decreases |lanes| - k
  {
    if k >= |lanes| then [] else MapFrom(lanes[k], 1) + Tails(lanes, k + 1)
  }

  /** Reference definition of what the traversal yields: lane 0 in full, then
      every later lane minus its first element. */
  function Yielded<E, Out>(lanes: seq<Lane<E, Out>>): seq<Out>
  {
    if |lanes| == 0 then [] else MapFrom(lanes[0], 0) + Tails(lanes, 1)
  }

  /** Total number of elements in lanes k..N-1. */
  function TotalFrom<E, Out>(lanes: seq<Lane<E, Out>>, k: nat): nat
    decreases |lanes| - k
  {
    if k >= |lanes| then 0 else |lanes[k].items| + TotalFrom(lanes, k + 1)
  }

  predicate NoEmptyLane<E, Out>(lanes: seq<Lane<E, Out>>)
  {
    forall k :: 0 <= k < |lanes| ==> 0 < |lanes[k].items|
  }

  /** A cursor over these lanes: one pair per lane, each lane's end where the
      lane ends, the active index at most N, and every lane below the active
      index exhausted. */
  predicate Consistent<E, Out>(lanes: seq<Lane<E, Out>>, c: Cursor)
  {
    && |c.pairs| == |lanes|
    && c.active <= |lanes|
    && (forall k :: 0 <= k < |lanes| ==> c.pairs[k].end == |lanes[k].items|)
    && Consumed(c)
  }

  /** The state of a cursor during a defined traversal: consistent, the active
      lane not exhausted, and the lanes above it untouched and non-empty. */
  predicate Live<E, Out>(lanes: seq<Lane<E, Out>>, c: Cursor)
  {
    && Consistent(lanes, c)
    && (c.active < |lanes| ==> c.pairs[c.active].cur < c.pairs[c.active].end)
    && (forall k :: c.active < k < |lanes| ==> c.pairs[k].cur == 0 && 0 < c.pairs[k].end)
  }

  /** What is left to yield from a live cursor. */
  function Remaining<E, Out>(lanes: seq<Lane<E, Out>>, c: Cursor): seq<Out>
    requires Live(lanes, c)
  {
    if c.active == |lanes| then []
    else MapFrom(lanes[c.active], c.pairs[c.active].cur) + Tails(lanes, c.active + 1)
  }

  /** `begin()` is live exactly when no lane is empty. */
  lemma {:induction false} BeginIsLive<E, Out>(lanes: seq<Lane<E, Out>>)
    ensures Live(lanes, Begin(lanes)) <==> NoEmptyLane(lanes)
  {
    var b := Begin(lanes);
    if Live(lanes, b) {
      forall k | 0 <= k < |lanes|
        ensures 0 < |lanes[k].items|
      {
        if k == 0 {
          assert b.pairs[0].cur < b.pairs[0].end;
        } else {
          assert 0 < b.pairs[k].end;
        }
      }
    }
  }

  /** A consistent cursor differs from `end()` exactly while its active index
      names a lane, and then `operator!=` decides on the indices alone without
      inspecting any pair; once the index reaches N the cursor is `end()`. */
  lemma {:induction false} ConsistentComparedWithEnd<E, Out>(lanes: seq<Lane<E, Out>>, c: Cursor)
    requires Consistent(lanes, c)
    ensures NotEqual(c, End(lanes)) <==> c.active < |lanes|
    ensures c.active < |lanes| ==> PairsInspected(c, End(lanes)) == 0
    ensures c.active == |lanes| ==> c == End(lanes)
  {
    var e := End(lanes);
    if c.active == |lanes| {
      assert forall k :: 0 <= k < |lanes| ==> c.pairs[k] == e.pairs[k];
      assert c.pairs == e.pairs;
    }
  }

  /** A live cursor can be dereferenced; it faults exactly when it equals `end()`. */
  lemma {:induction false} LiveDeref<E, Out>(lanes: seq<Lane<E, Out>>, c: Cursor)
    requires Live(lanes, c)
    ensures c.active < |lanes| ==> c.pairs[c.active].cur < |lanes[c.active].items|
    ensures Deref(lanes, c).Fault? <==> !NotEqual(c, End(lanes))
  {
    ConsistentComparedWithEnd(lanes, c);
  }

  /** Lanes with index at least `k` but not yet reached keep a defined fold. */
  lemma {:induction false} CanAdvanceWhenAheadIsSafe(c: Cursor, i: nat)
    requires forall k :: i <= k < |c.pairs| && c.active <= k ==> c.pairs[k].cur < c.pairs[k].end
    ensures CanAdvanceFrom(c, i)
    decreases |c.pairs| - i
  {
    if i < |c.pairs| {
      var next := TryIncrement(c, i);
      assert forall k :: i + 1 <= k < |c.pairs| && next.active <= k ==> next.pairs[k] == c.pairs[k];
      CanAdvanceWhenAheadIsSafe(next, i + 1);
    }
  }

  /** Advancing a live cursor that is not at the end is defined and keeps it live. */
  lemma {:induction false} AdvanceKeepsLive<E, Out>(lanes: seq<Lane<E, Out>>, c: Cursor)
    requires Live(lanes, c) && c.active < |lanes|
    ensures CanAdvance(c)
    ensures Live(lanes, Advance(c))
  {
    CanAdvanceWhenAheadIsSafe(c, 0);
  }

  /** Lanes of exactly one element contribute nothing to `Tails`. */
  lemma {:induction false} TailsSkipSingletons<E, Out>(lanes: seq<Lane<E, Out>>, lo: nat, hi: nat)
    requires lo <= hi <= |lanes|
    requires forall k :: lo <= k < hi ==> |lanes[k].items| == 1
    ensures Tails(lanes, lo) == Tails(lanes, hi)
    decreases hi - lo
  {
    if lo < hi {
      assert MapFrom(lanes[lo], 1) == [];
      TailsSkipSingletons(lanes, lo + 1, hi);
    }
  }

  /** One advance of a live cursor drops exactly the element it dereferenced
      from what remains. */
  lemma {:induction false} AdvanceRemaining<E, Out>(lanes: seq<Lane<E, Out>>, c: Cursor)
    requires Live(lanes, c) && c.active < |lanes|
    ensures CanAdvance(c) && Live(lanes, Advance(c))
    ensures Remaining(lanes, c) == [Deref(lanes, c).value] + Remaining(lanes, Advance(c))
  {
    AdvanceKeepsLive(lanes, c);
    AdvanceLeavesRest(lanes, c);
    RemainingHead(lanes, c);
  }

  /** What remains of a live cursor that is not at the end starts with its
      dereference. */
  lemma {:induction false} RemainingHead<E, Out>(lanes: seq<Lane<E, Out>>, c: Cursor)
    requires Live(lanes, c) && c.active < |lanes|
    ensures Remaining(lanes, c)
         == [Deref(lanes, c).value]
            + (MapFrom(lanes[c.active], c.pairs[c.active].cur + 1) + Tails(lanes, c.active + 1))
  {
    var a := c.active;
    var p := c.pairs[a].cur;
    assert p < |lanes[a].items|;
    var v := Deref(lanes, c).value;
    assert v == lanes[a].rule(lanes[a].items[p]);
    assert MapFrom(lanes[a], p) == [v] + MapFrom(lanes[a], p + 1);
    assert Remaining(lanes, c) == MapFrom(lanes[a], p) + Tails(lanes, a + 1);
  }

  /** After one advance of a live cursor, what remains is the rest of the
      lane it was on and the tails of the later lanes. */
  lemma {:induction false} AdvanceLeavesRest<E, Out>(lanes: seq<Lane<E, Out>>, c: Cursor)
    requires Live(lanes, c) && c.active < |lanes|
    requires CanAdvance(c) && Live(lanes, Advance(c))
    ensures Remaining(lanes, Advance(c))
         == MapFrom(lanes[c.active], c.pairs[c.active].cur + 1) + Tails(lanes, c.active + 1)
  {
    if Advance(c).active == c.active {
      StepRemaining(lanes, c);
    } else {
      CascadeRemaining(lanes, c);
    }
  }

  /** When the advance leaves the active lane unexhausted, what remains
      afterwards is the rest of that lane and the tails of later lanes. */
  lemma {:induction false} StepRemaining<E, Out>(lanes: seq<Lane<E, Out>>, c: Cursor)
    requires Live(lanes, c) && c.active < |lanes|
    requires CanAdvance(c) && Live(lanes, Advance(c))
    requires Advance(c).active == c.active
    ensures Remaining(lanes, Advance(c))
         == MapFrom(lanes[c.active], c.pairs[c.active].cur + 1) + Tails(lanes, c.active + 1)
  {
    assert Advance(c).pairs[c.active].cur == c.pairs[c.active].cur + 1;
  }

  /** When the advance exhausts the active lane, what remains afterwards is
      the tails of all later lanes. */
  lemma {:induction false} CascadeRemaining<E, Out>(lanes: seq<Lane<E, Out>>, c: Cursor)
    requires Live(lanes, c) && c.active < |lanes|
    requires CanAdvance(c) && Live(lanes, Advance(c))
    requires Advance(c).active != c.active
    ensures MapFrom(lanes[c.active], c.pairs[c.active].cur + 1) == []
    ensures Remaining(lanes, Advance(c)) == Tails(lanes, c.active + 1)
    ensures Remaining(lanes, Advance(c))
         == MapFrom(lanes[c.active], c.pairs[c.active].cur + 1) + Tails(lanes, c.active + 1)
  {
    var a := c.active;
    var r := Advance(c);
    assert r.pairs[a].cur == r.pairs[a].end;
    forall k | a + 1 <= k < r.active
      ensures |lanes[k].items| == 1
    {
      assert r.pairs[k].cur == r.pairs[k].end;
    }
    TailsSkipSingletons(lanes, a + 1, r.active);
    if r.active < |lanes| {
      assert r.pairs[r.active].cur == 1;
    }
  }

  /** The range-for loop from cursor c: while c differs from `end()`,
      dereference c and advance it. */
  function Walk<E, Out>(lanes: seq<Lane<E, Out>>, c: Cursor): (r: seq<Out>)
    requires Live(lanes, c)
    decreases |lanes| - c.active,
              if c.active < |lanes| then c.pairs[c.active].end - c.pairs[c.active].cur else 0
    // the loop yields nothing exactly when it starts at `end()`, and otherwise
    // starts with the dereference of its starting cursor
    ensures r == [] <==> c == End(lanes)
    ensures c != End(lanes) ==> 0 < |r| && r[0] == Deref(lanes, c).value
  {
    ConsistentComparedWithEnd(lanes, c);
    if !NotEqual(c, End(lanes)) then []
    else
      AdvanceKeepsLive(lanes, c);
      [Deref(lanes, c).value] + Walk(lanes, Advance(c))
  }

  /** From any live cursor the loop yields exactly what remains. */
  lemma {:induction false} WalkYieldsRemaining<E, Out>(lanes: seq<Lane<E, Out>>, c: Cursor)
    requires Live(lanes, c)
    ensures Walk(lanes, c) == Remaining(lanes, c)
    decreases |lanes| - c.active,
              if c.active < |lanes| then c.pairs[c.active].end - c.pairs[c.active].cur else 0
  {
    ConsistentComparedWithEnd(lanes, c);
    if c.active < |lanes| {
      AdvanceRemaining(lanes, c);
      WalkYieldsRemaining(lanes, Advance(c));
    }
  }

  /** The whole join, as the range-for over `begin()`..`end()` yields it. */
  function Joined<E, Out>(lanes: seq<Lane<E, Out>>): (r: seq<Out>)
    requires NoEmptyLane(lanes)
    ensures r == [] <==> |lanes| == 0
    ensures 0 < |lanes| ==> 0 < |r| && r[0] == lanes[0].rule(lanes[0].items[0])
  {
    BeginIsLive(lanes);
    Walk(lanes, Begin(lanes))
  }

  /** With every lane non-empty, the join yields lane 0 in full and then each
      later lane without its first element: the cascade in `operator++` steps
      the next lane in the same call that exhausts the previous one. */
  lemma {:induction false} JoinedIsFirstLaneThenTails<E, Out>(lanes: seq<Lane<E, Out>>)
    requires NoEmptyLane(lanes)
    ensures Joined(lanes) == Yielded(lanes)
  {
    BeginIsLive(lanes);
    WalkYieldsRemaining(lanes, Begin(lanes));
  }

  lemma {:induction false} TailsLength<E, Out>(lanes: seq<Lane<E, Out>>, k: nat)
    requires k <= |lanes| && NoEmptyLane(lanes)
    ensures |Tails(lanes, k)| + (|lanes| - k) == TotalFrom(lanes, k)
    decreases |lanes| - k
  {
    if k < |lanes| {
      TailsLength(lanes, k + 1);
      assert 0 < |lanes[k].items|;
      assert |MapFrom(lanes[k], 1)| == |lanes[k].items| - 1;
      assert Tails(lanes, k) == MapFrom(lanes[k], 1) + Tails(lanes, k + 1);
      assert TotalFrom(lanes, k) == |lanes[k].items| + TotalFrom(lanes, k + 1);
    }
  }

  /** With N non-empty lanes the join yields N - 1 fewer elements than the
      lanes hold together. */
  lemma {:induction false} JoinedLength<E, Out>(lanes: seq<Lane<E, Out>>)
    requires NoEmptyLane(lanes) && 0 < |lanes|
    ensures |Joined(lanes)| + (|lanes| - 1) == TotalFrom(lanes, 0)
  {
    JoinedIsFirstLaneThenTails(lanes);
    TailsLength(lanes, 1);
  }

  /** A single non-empty lane is reproduced in full through its rule. */
  lemma {:induction false} SingleLaneReproduced<E, Out>(lane: Lane<E, Out>)
    requires 0 < |lane.items|
    ensures Joined([lane]) == MapFrom(lane, 0)
  {
    JoinedIsFirstLaneThenTails([lane]);
  }

  /** An empty lane after the active one makes `operator++` undefined once
      every lane from the active one up to it has exactly one element left:
      the advance exhausts each of those lanes in turn, cascading, and then
      steps the empty lane j past its end. */
  lemma {:induction false} EmptyLaneIsSteppedPastEnd(c: Cursor, j: nat)
    requires c.active < j < |c.pairs|
    requires forall k :: c.active <= k < j ==> c.pairs[k].cur + 1 == c.pairs[k].end
    requires c.pairs[j].cur == c.pairs[j].end
    ensures !CanAdvance(c)
  {
    SkipToActive(c, 0);
    CascadeReachesEnd(c, j);
  }

  /** The fold from the active lane, over a run of lanes with one element left
      that ends at an exhausted lane j, steps lane j past its end. */
  lemma {:induction false} CascadeReachesEnd(c: Cursor, j: nat)
    requires c.active < j < |c.pairs|
    requires forall k :: c.active <= k < j ==> c.pairs[k].cur + 1 == c.pairs[k].end
    requires c.pairs[j].cur == c.pairs[j].end
    ensures !CanAdvanceFrom(c, c.active)
    decreases j - c.active
  {
    var next := TryIncrement(c, c.active);
    assert next.active == c.active + 1;
    if next.active < j {
      CascadeReachesEnd(next, j);
    } else {
      assert next.pairs[j] == c.pairs[j];
    }
  }

  /** Lanes below the active index do not change the fold. */
  lemma {:induction false} SkipToActive(c: Cursor, i: nat)
    requires i <= c.active < |c.pairs|
    ensures CanAdvanceFrom(c, i) <==> CanAdvanceFrom(c, c.active)
    decreases c.active - i
  {
    if i < c.active {
      SkipToActive(c, i + 1);
    }
  }

  /** An empty lane 0 leaves `begin()` different from `end()` yet positioned
      at that lane's end, where dereference is undefined. */
  lemma {:induction false} EmptyFirstLaneBeginAtEnd<E, Out>(lanes: seq<Lane<E, Out>>)
    requires 0 < |lanes| && |lanes[0].items| == 0
    ensures NotEqual(Begin(lanes), End(lanes))
    ensures !(Begin(lanes).pairs[0].cur < |lanes[0].items|)
  {
  }
}
