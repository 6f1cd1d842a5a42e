/**
 A model of the join cursor of join-iterator.h: a read-only forward cursor that
 chains N lanes (source sequences) into one traversal.

 Each lane is an already-ordered sequence of elements together with its
 extraction rule. A cursor holds the index of the active lane and, for every
 lane, a position pair (current, end) of natural-number positions into that
 lane. The four operations are `Begin`/`End` (the container's cursor
 factories), `Advance` (operator++), `NotEqual` (operator!=) and `Deref`
 (operator*).
 */
module JoinIterator {

  /** A lane's traversal handles: the current position and the end position. */
  datatype Pair = Pair(cur: nat, end: nat)

  /** The join cursor: the active lane index plus one position pair per lane. */
  datatype Cursor = Cursor(active: nat, pairs: seq<Pair>)

  /** One participating source: its elements in native order and the rule
      that turns one element into the shared output type. */
  datatype Lane<!E, Out> = Lane(items: seq<E>, rule: E -> Out)

  /** The outcome of a dereference: a value, or the fault raised when the
      active index names no lane. */
  datatype Read<Out> = Value(value: Out) | Fault

  /** A per-lane extraction: present only for the active lane. */
  datatype Option<T> = None | Some(value: T)

  /** The default extraction rule: plain dereference of the element. */
  function ExtractValue<E>(e: E): (r: E)
    ensures r == e
  {
    e
  }

  /** Lanes that all use the default extraction rule. */
  function DefaultLanes<E>(items: seq<seq<E>>): (lanes: seq<Lane<E, E>>)
    ensures |lanes| == |items|
    ensures forall k :: 0 <= k < |items| ==> lanes[k].items == items[k]
  {
    seq(|items|, k requires 0 <= k < |items| => Lane(items[k], ExtractValue))
  }

  /** The container's `begin()`: active index 0, every lane at (begin, end). */
  function Begin<E, Out>(lanes: seq<Lane<E, Out>>): (c: Cursor)
    ensures c.active == 0
    ensures |c.pairs| == |lanes|
    ensures forall k :: 0 <= k < |lanes| ==> c.pairs[k] == Pair(0, |lanes[k].items|)
  {
    Cursor(0, seq(|lanes|, k requires 0 <= k < |lanes| => Pair(0, |lanes[k].items|)))
  }

  /** The container's `end()`: active index N, every lane at (end, end). */
  function End<E, Out>(lanes: seq<Lane<E, Out>>): (c: Cursor)
    ensures c.active == |lanes|
    ensures |c.pairs| == |lanes|
    ensures forall k :: 0 <= k < |lanes| ==> c.pairs[k] == Pair(|lanes[k].items|, |lanes[k].items|)
  {
    Cursor(|lanes|, seq(|lanes|, k requires 0 <= k < |lanes| => Pair(|lanes[k].items|, |lanes[k].items|)))
  }

  /** `try_increment` for lane i: only when lane i is the active lane, step it
      once, and move the active index on if that step reached the lane's end.
      Stepping a lane already at its end is undefined, hence the requires. */
  function TryIncrement(c: Cursor, i: nat): (r: Cursor)
    requires i < |c.pairs|
    requires c.active == i ==> c.pairs[i].cur < c.pairs[i].end
    ensures |r.pairs| == |c.pairs|
    ensures c.active != i ==> r == c
    ensures c.active == i ==> r.pairs == c.pairs[i := Pair(c.pairs[i].cur + 1, c.pairs[i].end)]
    ensures c.active == i ==> (r.active == i + 1 <==> r.pairs[i].cur == r.pairs[i].end)
    ensures c.active == i ==> r.active == i || r.active == i + 1
  {
    if c.active == i then
      var p := Pair(c.pairs[i].cur + 1, c.pairs[i].end);
      Cursor(if p.cur == p.end then c.active + 1 else c.active, c.pairs[i := p])
    else
      c
  }

  /** Whether the fold of `try_increment` over lanes i..N-1 never steps a lane
      that is already at its end (which would be undefined behaviour). */
  function CanAdvanceFrom(c: Cursor, i: nat): (r: bool)
    decreases |c.pairs| - i
    // lanes the fold has passed, or an index naming no lane, leave it defined
    ensures c.active < i || c.active >= |c.pairs| ==> r
    // a defined fold that still reaches the active lane finds it short of its end
    ensures r && i <= c.active < |c.pairs| ==> c.pairs[c.active].cur < c.pairs[c.active].end
  {
    i >= |c.pairs|
    || ((c.active == i ==> c.pairs[i].cur < c.pairs[i].end)
        && CanAdvanceFrom(TryIncrement(c, i), i + 1))
  }

  /** Whether `operator++` is defined on c. */
  function CanAdvance(c: Cursor): (r: bool)
    ensures c.active >= |c.pairs| ==> r
    ensures r && c.active < |c.pairs| ==> c.pairs[c.active].cur < c.pairs[c.active].end
  {
    CanAdvanceFrom(c, 0)
  }

  /** The comma fold of `try_increment` over lanes i..N-1, in index order,
      each call re-reading the active index left by the previous one. */
  function AdvanceFrom(c: Cursor, i: nat): (r: Cursor)
    requires CanAdvanceFrom(c, i)
    decreases |c.pairs| - i
    ensures |r.pairs| == |c.pairs|
    ensures c.active <= r.active
  {
    if i >= |c.pairs| then c
    else AdvanceFrom(TryIncrement(c, i), i + 1)
  }

  /** The fold from lane i leaves a cursor whose active index names no lane,
      or names a lane it has not reached yet, unchanged; it never moves an
      end position, and never takes the index past N. */
  lemma {:induction false} AdvanceFromFrame(c: Cursor, i: nat)
    requires CanAdvanceFrom(c, i)
    decreases |c.pairs| - i
    ensures var r := AdvanceFrom(c, i);
      && (c.active <= |c.pairs| ==> r.active <= |c.pairs|)
      && (c.active < i || c.active >= |c.pairs| ==> r == c)
      && (forall k :: 0 <= k < |c.pairs| ==> r.pairs[k].end == c.pairs[k].end)
  {
    if i < |c.pairs| {
      AdvanceFromFrame(TryIncrement(c, i), i + 1);
    }
  }

  /** Lane k is stepped by the fold from lane i exactly when i <= k and
      c.active <= k <= r.active, and every stepped lane was short of its end. */
  lemma {:induction false} AdvanceFromSteps(c: Cursor, i: nat)
    requires CanAdvanceFrom(c, i)
    decreases |c.pairs| - i
    ensures var r := AdvanceFrom(c, i);
      && (forall k :: 0 <= k < |c.pairs| ==>
            r.pairs[k].cur == if i <= k && c.active <= k <= r.active
                              then c.pairs[k].cur + 1 else c.pairs[k].cur)
      && (forall k :: i <= k < |c.pairs| && c.active <= k <= r.active ==>
            c.pairs[k].cur < c.pairs[k].end)
  {
    if i < |c.pairs| {
      var next := TryIncrement(c, i);
      AdvanceFromSteps(next, i + 1);
      AdvanceFromFrame(next, i + 1);
    }
  }

  /** The fold from lane i moves the index past a lane only when that lane is
      exhausted, and leaves it on a lane that is not. */
  lemma {:induction false} AdvanceFromStops(c: Cursor, i: nat)
    requires CanAdvanceFrom(c, i)
    decreases |c.pairs| - i
    ensures var r := AdvanceFrom(c, i);
      && (forall k :: c.active <= k < r.active ==>
            k < |c.pairs| && r.pairs[k].cur == r.pairs[k].end)
      && (i <= c.active && r.active < |c.pairs| ==>
            r.pairs[r.active].cur < r.pairs[r.active].end)
  {
    if i < |c.pairs| {
      var next := TryIncrement(c, i);
      AdvanceFromStops(next, i + 1);
      AdvanceFromFrame(next, i + 1);
      if c.active == i {
        AdvanceFromSteps(next, i + 1);
      }
    }
  }

  /** Lanes below the active index are exhausted. */
  predicate Consumed(c: Cursor)
  {
    forall k :: 0 <= k < |c.pairs| && k < c.active ==> c.pairs[k].cur == c.pairs[k].end
  }

  /** `operator++`. */
  function Advance(c: Cursor): (r: Cursor)
    requires CanAdvance(c)
    ensures |r.pairs| == |c.pairs|
    // the active index never decreases, and never passes N
    ensures c.active <= r.active
    ensures c.active <= |c.pairs| ==> r.active <= |c.pairs|
    // on a cursor whose active index names no lane nothing happens
    ensures c.active >= |c.pairs| ==> r == c
    // lanes below the starting active index are untouched
    ensures forall k :: 0 <= k < c.active && k < |c.pairs| ==> r.pairs[k] == c.pairs[k]
    // ends never move; each current moves by at most one step, and exactly
    // the lanes from the old to the new active index are stepped
    ensures forall k :: 0 <= k < |c.pairs| ==> r.pairs[k].end == c.pairs[k].end
    ensures forall k :: 0 <= k < |c.pairs| ==>
              r.pairs[k].cur == if c.active <= k <= r.active
                                then c.pairs[k].cur + 1 else c.pairs[k].cur
    // the index moves past a lane only once that lane is exhausted
    ensures forall k :: c.active <= k < r.active ==>
              k < |c.pairs| && r.pairs[k].cur == r.pairs[k].end
    ensures r.active < |c.pairs| && c.active < |c.pairs| ==>
              r.pairs[r.active].cur < r.pairs[r.active].end
    ensures Consumed(c) ==> Consumed(r)
  {
    AdvanceFromFrame(c, 0);
    AdvanceFromSteps(c, 0);
    AdvanceFromStops(c, 0);
    AdvanceFrom(c, 0)
  }

  /** The fold `(... || !is_same(lhs_k, rhs_k))` over lanes i..N-1. */
  function AnyPairDiffers(a: seq<Pair>, b: seq<Pair>, i: nat): (r: bool)
    requires |a| == |b|
    decreases |a| - i
    ensures r <==> exists k :: i <= k < |a| && a[k] != b[k]
  {
    if i >= |a| then false
    else !(a[i].cur == b[i].cur && a[i].end == b[i].end) || AnyPairDiffers(a, b, i + 1)
  }

  /** `operator!=`: the active indices first, the position pairs only when
      those agree. Two cursors over the same lanes always hold N pairs each. */
  function NotEqual(x: Cursor, y: Cursor): (r: bool)
    requires |x.pairs| == |y.pairs|
    ensures x.active != y.active ==> r
    ensures x.active == y.active ==> (r <==> exists k :: 0 <= k < |x.pairs| && x.pairs[k] != y.pairs[k])
    ensures r <==> x != y
  {
    x.active != y.active || AnyPairDiffers(x.pairs, y.pairs, 0)
  }

  /** How many `is_same` calls the short-circuiting fold of lanes i..N-1 makes:
      it stops after the first pair that differs. */
  function SameCallsFrom(a: seq<Pair>, b: seq<Pair>, i: nat): (n: nat)
    requires |a| == |b| && i <= |a|
    decreases |a| - i
    ensures n <= |a| - i
    ensures forall k :: i <= k < i + n - 1 ==> a[k] == b[k]
    ensures n == |a| - i || (0 < n && a[i + n - 1] != b[i + n - 1])
  {
    if i == |a| then 0
    else if a[i] != b[i] then 1
    else 1 + SameCallsFrom(a, b, i + 1)
  }

  /** How many lane pairs `operator!=` inspects. */
  function PairsInspected(x: Cursor, y: Cursor): (n: nat)
    requires |x.pairs| == |y.pairs|
    ensures x.active != y.active ==> n == 0
    ensures x.active == y.active ==> n <= |x.pairs|
    ensures x.active == y.active && 0 < |x.pairs| ==> 0 < n
    ensures forall k :: 0 <= k < n - 1 ==> x.pairs[k] == y.pairs[k]
    ensures x.active == y.active && n < |x.pairs| ==> 0 < n && x.pairs[n - 1] != y.pairs[n - 1]
  {
    if x.active != y.active then 0 else SameCallsFrom(x.pairs, y.pairs, 0)
  }

  /** `try_extract` for lane i: the extraction of lane i's current element when
      lane i is the active lane, and nothing otherwise. */
  function TryExtract<E, Out>(lanes: seq<Lane<E, Out>>, c: Cursor, i: nat): (r: Option<Out>)
    requires i < |lanes| && |c.pairs| == |lanes|
    requires c.active == i ==> c.pairs[i].cur < |lanes[i].items|
    ensures r.Some? <==> c.active == i
    ensures r.Some? ==> r.value == lanes[i].rule(lanes[i].items[c.pairs[i].cur])
  {
    if i == c.active then Some(lanes[i].rule(lanes[i].items[c.pairs[i].cur])) else None
  }

  /** The loop of `operator*` over the per-lane extractions i..N-1: the first
      one present, or the fault when none is. */
  function FirstExtracted<E, Out>(lanes: seq<Lane<E, Out>>, c: Cursor, i: nat): (r: Read<Out>)
    requires |c.pairs| == |lanes|
    requires i <= c.active < |lanes| ==> c.pairs[c.active].cur < |lanes[c.active].items|
    decreases |lanes| - i
    ensures r.Fault? <==> !(i <= c.active < |lanes|)
    ensures r.Value? ==> r.value == lanes[c.active].rule(lanes[c.active].items[c.pairs[c.active].cur])
  {
    if i >= |lanes| then Fault
    else match TryExtract(lanes, c, i)
      case Some(v) => Value(v)
      case None => FirstExtracted(lanes, c, i + 1)
  }

  /** `operator*`: the active lane's extraction rule applied to that lane's
      current element; a fault when the active index names no lane.
      Dereferencing a lane's end position is undefined, hence the requires. */
  function Deref<E, Out>(lanes: seq<Lane<E, Out>>, c: Cursor): (r: Read<Out>)
    requires |c.pairs| == |lanes|
    requires c.active < |lanes| ==> c.pairs[c.active].cur < |lanes[c.active].items|
    ensures r.Fault? <==> c.active >= |lanes|
    ensures r.Value? ==> r.value == lanes[c.active].rule(lanes[c.active].items[c.pairs[c.active].cur])
  {
    FirstExtracted(lanes, c, 0)
  }

  /** With the default extraction rule, dereference yields the element itself. */
  lemma DefaultDerefIsElement<E>(items: seq<seq<E>>, c: Cursor)
    requires |c.pairs| == |items| && c.active < |items|
    requires c.pairs[c.active].cur < |items[c.active]|
    ensures Deref(DefaultLanes(items), c) == Value(items[c.active][c.pairs[c.active].cur])
  {
  }

  /** `begin()` and `end()` compare equal exactly when there are no lanes. */
  lemma BeginEqualsEndIffNoLanes<E, Out>(lanes: seq<Lane<E, Out>>)
    ensures !NotEqual(Begin(lanes), End(lanes)) <==> |lanes| == 0
  {
  }

  /** The cascade: when the advance exhausts the active lane and another lane
      follows, that next lane is stepped in the same call. */
  lemma CascadeStepsNextLane(c: Cursor)
    requires CanAdvance(c)
    requires c.active + 1 < |c.pairs|
    requires c.pairs[c.active].cur + 1 == c.pairs[c.active].end
    ensures Advance(c).active > c.active
    ensures Advance(c).pairs[c.active + 1].cur == c.pairs[c.active + 1].cur + 1
  {
  }
}
