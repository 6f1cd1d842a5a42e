/**
 Concrete instances of the join, on the data of the usage demo in main.cpp: a
 vector lane [1, 12, 13, 14] read by plain dereference, and an ordered map
 lane with keys 15, 61, 230 read key-only. The map lane is given already in
 the map's ascending key order.
 */
module Demo {
  import opened JoinIterator
  import opened Traversal
  import opened Corrected

  /** The native elements of the two demo lanes: vector numbers and map entries. */
  datatype Native = Number(n: int) | Entry(key: int, value: real)

  /** The vector lane's rule: the element itself (that lane holds only numbers). */
  function Plain(x: Native): int
  {
    if x.Number? then x.n else 0
  }

  /** The map lane's rule: the entry's key only. */
  function KeyOnly(x: Native): int
  {
    if x.Entry? then x.key else 0
  }

  function NumbersLane(): Lane<Native, int>
  {
    Lane([Number(1), Number(12), Number(13), Number(14)], Plain)
  }

  function EntriesLane(): Lane<Native, int>
  {
    Lane([Entry(15, 34.0), Entry(61, 34.0), Entry(230, 34.0)], KeyOnly)
  }

  function DemoLanes(): seq<Lane<Native, int>>
  {
    [NumbersLane(), EntriesLane()]
  }

  lemma NumbersLaneYields(lane: Lane<Native, int>)
    requires lane == NumbersLane()
    ensures MapFrom(lane, 0) == [1, 12, 13, 14]
  {
    assert MapFrom(lane, 4) == [];
    assert MapFrom(lane, 3) == [14];
    assert MapFrom(lane, 2) == [13, 14];
    assert MapFrom(lane, 1) == [12, 13, 14];
  }

  lemma EntriesLaneYields(lane: Lane<Native, int>)
    requires lane == EntriesLane()
    ensures MapFrom(lane, 1) == [61, 230]
    ensures MapFrom(lane, 0) == [15, 61, 230]
  {
    assert MapFrom(lane, 3) == [];
    assert MapFrom(lane, 2) == [230];
  }

  /** As written, the demo loses key 15: the advance that exhausts the vector
      lane also steps the map lane past its first entry. */
  lemma DemoSkipsFirstKey(lanes: seq<Lane<Native, int>>)
    requires lanes == DemoLanes()
    ensures NoEmptyLane(lanes)
    ensures Joined(lanes) == [1, 12, 13, 14, 61, 230]
  {
    DemoYielded(lanes);
    JoinedIsFirstLaneThenTails(lanes);
  }

  lemma DemoYielded(lanes: seq<Lane<Native, int>>)
    requires lanes == DemoLanes()
    ensures Yielded(lanes) == [1, 12, 13, 14, 61, 230]
    ensures Concat(lanes, 0) == [1, 12, 13, 14, 15, 61, 230]
  {
    NumbersLaneYields(lanes[0]);
    EntriesLaneYields(lanes[1]);
    assert Tails(lanes, 1) == MapFrom(lanes[1], 1) + Tails(lanes, 2);
    assert Concat(lanes, 1) == MapFrom(lanes[1], 0) + Concat(lanes, 2);
  }

  /** With the corrected advance the demo yields every key. */
  lemma DemoSettledYieldsAllKeys(lanes: seq<Lane<Native, int>>)
    requires lanes == DemoLanes()
    ensures SettledJoined(lanes) == [1, 12, 13, 14, 15, 61, 230]
  {
    DemoYielded(lanes);
    SettledJoinedIsConcat(lanes);
  }

  function GapLanes(): seq<Lane<int, int>>
  {
    DefaultLanes([[1, 2], [], [3, 4]])
  }

  /** As written, an empty interior lane makes the traversal undefined: the
      second advance exhausts lane 0 and then steps the empty lane 1. */
  lemma GapLaneSteppedPastEnd()
    ensures CanAdvance(Begin(GapLanes()))
    ensures !CanAdvance(Advance(Begin(GapLanes())))
  {
    var lanes := GapLanes();
    var b := Begin(lanes);
    assert b.pairs == [Pair(0, 2), Pair(0, 0), Pair(0, 2)];
    assert TryIncrement(b, 0) == Cursor(0, [Pair(1, 2), Pair(0, 0), Pair(0, 2)]);
    var c := Advance(b);
    assert c == Cursor(0, [Pair(1, 2), Pair(0, 0), Pair(0, 2)]);
    EmptyLaneIsSteppedPastEnd(c, 1);
  }

  function ChainLanes(): seq<Lane<int, int>>
  {
    DefaultLanes([[1, 2], [5], []])
  }

  /** As written, a trailing empty lane is reached through a cascade: the
      second advance exhausts lane 0, steps the one-element lane 1 to its end,
      and then steps the empty lane 2. */
  lemma ChainLaneSteppedPastEnd()
    ensures CanAdvance(Begin(ChainLanes()))
    ensures !CanAdvance(Advance(Begin(ChainLanes())))
  {
    var lanes := ChainLanes();
    var b := Begin(lanes);
    assert b.pairs == [Pair(0, 2), Pair(0, 1), Pair(0, 0)];
    assert TryIncrement(b, 0) == Cursor(0, [Pair(1, 2), Pair(0, 1), Pair(0, 0)]);
    var c := Advance(b);
    assert c == Cursor(0, [Pair(1, 2), Pair(0, 1), Pair(0, 0)]);
    EmptyLaneIsSteppedPastEnd(c, 2);
  }

  /** With the corrected advance the empty interior lane is passed over. */
  lemma GapLaneSettled(lanes: seq<Lane<int, int>>)
    requires lanes == GapLanes()
    ensures SettledJoined(lanes) == [1, 2, 3, 4]
  {
    GapConcat(lanes);
    SettledJoinedIsConcat(lanes);
  }

  lemma GapConcat(lanes: seq<Lane<int, int>>)
    requires lanes == GapLanes()
    ensures Concat(lanes, 0) == [1, 2, 3, 4]
  {
    assert MapFrom(lanes[0], 1) == [2];
    assert MapFrom(lanes[0], 0) == [1, 2];
    assert MapFrom(lanes[1], 0) == [];
    assert MapFrom(lanes[2], 1) == [4];
    assert MapFrom(lanes[2], 0) == [3, 4];
    assert Concat(lanes, 3) == [];
    assert Concat(lanes, 2) == [3, 4];
    assert Concat(lanes, 1) == [3, 4];
  }
}
