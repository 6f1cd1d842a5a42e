# Join cursor model

A Dafny model of the join cursor of `join-iterator.h`: a read-only view that
chains N source sequences ("lanes") into one forward traversal. A cursor holds
the active lane index and, for every lane, a position pair (current, end). The
container manufactures cursors with `begin()` and `end()`. The cursor offers
`operator++`, `operator!=` and `operator*`; the last one applies the active
lane's extraction rule to that lane's current element.

The model is functional. A lane is a record of an already-ordered `seq` of
elements and its extraction rule, a function from the element type to the
output type. Positions are `nat` indices into the lane. A cursor is an
immutable datatype. The operations are pure functions:

- `join_iterator.dfy` (module `JoinIterator`) models the header. It covers
  `begin`/`end`, `try_increment` and the comma fold of `operator++`,
  `is_same` and the short-circuit fold of `operator!=`, and `try_extract` and
  the scan of `operator*`. It also holds the default `extract_value`.
- `traversal.dfy` (module `Traversal`) models what a range-for over the join
  yields when it is driven as written. It also gives the cursor invariant that
  traversal keeps.
- `corrected.dfy` (module `Corrected`) holds the evidently intended advance,
  which settles on the next non-exhausted lane without stepping it. It proves
  that this advance yields the plain concatenation of the lanes (see Findings).
- `demo.dfy` (module `Demo`) instantiates the join on the data of the usage
  demo in `main.cpp`, and on a join with an empty interior lane.

The code is modelled as written. `operator++` folds `try_increment` over all
lanes in index order, and each call re-reads the active index left by the
previous one. So the advance that exhausts lane i also steps lane i+1 in the
same call. With all lanes non-empty, the traversal yields lane 0 in full and
then every later lane without its first element. That is Σlen − (N−1)
elements. Two situations are undefined behaviour in C++, and they are
preconditions here:

- stepping a lane that is already at its end (`CanAdvance`);
- dereferencing a lane's end position (the requires of `Deref`).

Consequently the traversal is defined when no lane is empty. An empty lane 0
leaves `begin()` positioned at that lane's end. A later empty lane is stepped
past its end by the cascade of the advance that exhausts the lanes before it;
the model proves this for any run of lanes with one element left that ends at
the empty lane.

A join is evidently meant to yield every lane in full, in lane order, passing
over empty lanes; on the demo's data that is 1, 12, 13, 14, 15, 61, 230. The
code skips the first element of every lane after the first, and steps empty
lanes past their end. The model follows the code. The intended behaviour is
proved of the corrected advance in `Corrected`.

Heterogeneous lanes are modelled with one element type `E` per join; a sum
type (as `Demo.Native`) holds the different native element types. Two cursors
are compared only when they come from the same join, so they hold the same
number of pairs; `NotEqual` requires that.

## Model

| member | source | states |
|---|---|---|
| JoinIterator.Begin | join-iterator.h:100-105 | `begin()` yields active index 0 (the member's default) and, for every lane, the pair (lane start, lane end) |
| JoinIterator.End | join-iterator.h:107-114 | `end()` yields active index N and, for every lane, the pair (lane end, lane end) |
| JoinIterator.ExtractValue | join-iterator.h:117-120 | the default rule returns the element itself |
| JoinIterator.TryIncrement | join-iterator.h:70-77 | only the lane equal to the active index is stepped, by one; the index moves on exactly when that step reaches the lane's end; any other lane leaves the cursor unchanged |
| JoinIterator.CanAdvance | join-iterator.h:71-77 | `operator++` is defined when the active index names no lane; when it is defined and the index names a lane, that lane is short of its end, since line 73 steps it with no end check |
| JoinIterator.AdvanceFrom | join-iterator.h:47-50 | the fold over lanes keeps one pair per lane and never lowers the active index |
| JoinIterator.AdvanceFromFrame | join-iterator.h:47-50 | the fold leaves a cursor unchanged when its index names no lane or a lane the fold has already passed; it never moves an end position, and never takes the index past N |
| JoinIterator.AdvanceFromSteps | join-iterator.h:71-77 | the fold steps lane k exactly when k lies between the old and the new active index (inclusive), and each stepped lane was short of its end |
| JoinIterator.AdvanceFromStops | join-iterator.h:73-75 | the index moves past a lane only when that lane is exhausted, and it stops on a lane that is not |
| JoinIterator.Advance | join-iterator.h:47-50 | `operator++` never lowers the active index. It is a no-op when the index names no lane, and leaves every lane below the starting index untouched. It moves each current by at most one and never moves an end. It keeps "every lane below the index is exhausted" |
| JoinIterator.AnyPairDiffers | join-iterator.h:54-55 | the fold of `!is_same` is true exactly when some lane's current or end differs |
| JoinIterator.NotEqual | join-iterator.h:52-57 | `operator!=` is true when the indices differ; with equal indices it is true exactly when some pair differs; hence it is exactly structural inequality of the cursors |
| JoinIterator.SameCallsFrom | join-iterator.h:54-56 | the short-circuit fold stops after the first differing pair: all pairs before it are equal |
| JoinIterator.PairsInspected | join-iterator.h:52-56 | when the indices differ no pair is inspected; otherwise the pairs inspected are equal up to the last one, which differs unless all N were inspected |
| JoinIterator.TryExtract | join-iterator.h:79-85 | a lane yields an extraction exactly when it is the active lane, and that extraction is the lane's rule applied to its current element |
| JoinIterator.FirstExtracted | join-iterator.h:59-65 | the scan over per-lane extractions finds a value exactly when the active index names a lane, and that value is the active lane's rule applied to its current element; otherwise it faults |
| JoinIterator.Deref | join-iterator.h:59-65 | `operator*` faults exactly when the active index is N or more; otherwise it yields the active lane's rule applied to that lane's current element |
| JoinIterator.DefaultDerefIsElement | join-iterator.h:117-120 | with the default extraction rule, dereference yields the lane's current element itself |
| JoinIterator.BeginEqualsEndIffNoLanes | join-iterator.h:100-114 | `begin()` and `end()` compare equal exactly when the join has no lanes |
| JoinIterator.CascadeStepsNextLane | join-iterator.h:71-77 | an advance that exhausts the active lane, when another lane follows, moves the index on and steps that next lane in the same call |
| Traversal.BeginIsLive | join-iterator.h:100-105 | `begin()` is in the traversal invariant exactly when no lane is empty |
| Traversal.ConsistentComparedWithEnd | join-iterator.h:52-57 | a cursor whose lanes below the index are exhausted differs from `end()` exactly while its index is below N, and then no pair is inspected. Once the index reaches N, the cursor is `end()` |
| Traversal.LiveDeref | join-iterator.h:59-65 | a cursor in the traversal invariant is dereferenceable, and faults exactly when it equals `end()` |
| Traversal.CanAdvanceWhenAheadIsSafe | join-iterator.h:71-77 | the fold is defined whenever every lane at or after the index is short of its end |
| Traversal.AdvanceKeepsLive | join-iterator.h:47-50 | advancing a cursor in the traversal invariant that is not at the end is defined and keeps the invariant |
| Traversal.CascadeRemaining | join-iterator.h:71-77 | when an advance exhausts the active lane, what the traversal still yields is the later lanes each without its first element |
| Traversal.AdvanceRemaining | join-iterator.h:47-65 | one advance drops exactly the dereferenced element from what the traversal still yields |
| Traversal.WalkYieldsRemaining | main.cpp:25-27 | the loop "while cursor != end(): dereference, advance" yields exactly what remains of any cursor in the traversal invariant |
| Traversal.Walk | main.cpp:25-27 | the loop "while cursor != end(): dereference, advance" from a cursor in the traversal invariant yields nothing exactly when it starts at `end()`, and otherwise starts with that cursor's dereference |
| Traversal.Joined | main.cpp:25-27 | the range-for over the join yields nothing exactly when there are no lanes, and otherwise starts with lane 0's first element through its rule |
| Traversal.JoinedIsFirstLaneThenTails | join-iterator.h:47-50 | with every lane non-empty, the join yields lane 0 in full followed by every later lane without its first element |
| Traversal.JoinedLength | join-iterator.h:47-50 | with N non-empty lanes, the join yields N − 1 fewer elements than the lanes hold together |
| Traversal.SingleLaneReproduced | join-iterator.h:47-50 | a single non-empty lane is reproduced in full through its rule |
| Traversal.EmptyLaneIsSteppedPastEnd | join-iterator.h:72-75 | when every lane from the active one up to a later exhausted lane has exactly one element left, `operator++` is undefined: the cascade exhausts them in turn and steps the exhausted lane past its end |
| Traversal.EmptyFirstLaneBeginAtEnd | join-iterator.h:100-105 | with an empty lane 0, `begin()` differs from `end()` yet sits at lane 0's end, where dereference is undefined |
| Demo.DemoSkipsFirstKey | main.cpp:14-27 | on the demo data the join yields 1, 12, 13, 14, 61, 230: key 15 is lost |
| Demo.GapLaneSteppedPastEnd | join-iterator.h:71-77 | on lanes [1,2], [], [3,4] the first advance is defined and the second is not |
| Demo.ChainLaneSteppedPastEnd | join-iterator.h:71-77 | on lanes [1,2], [5], [] the first advance is defined; the second cascades through lane 1 and steps the empty lane 2 |

## Left out

- The compile-time machinery is left out: `index_sequence`, the multiple inheritance of `indexed_ref_t` and `iterator_pair_t`, the deduction guides, and the `join_container_t` wrapper (join-iterator.h:15-45, 93-98, 124-132). An ordered `seq` of lane records replaces it.
- The `const void*` array and the `*(int*)` reinterpretation in `operator*` are left out. They are unsafe type punning. Dereference yields the output type directly.
- The lookup of a global `extract_value` overload through the tag type is left out. It becomes an explicit rule per lane. `ExtractValue` is the default rule.
- The `runtime_error` object and its message are left out. The fault is the `Read.Fault` value.
- The active index is a `uint32_t` in the source; its wrap-around is not modelled, since it would need 2^32 lanes.
- Iterator and container semantics are left out: the ordering of `std::map`, non-owning references, lifetimes and iterator invalidation. Each lane is an already-ordered sequence; the demo's map lane is given in ascending key order.
- Re-iterating the same join twice yields the same sequence. Every operation is a pure function of the lanes, so this holds by construction and gets no lemma.
- main.cpp is not part of the core. It prints to the console, and `transform_join_container_t`/`type_holder_t` are not defined in the header. Its pointer-returning `extract_value` also does not fit the header's `&extract_value(...)`. Only its data is used, in `Demo`.
- `Deref` and `Advance` require what the source leaves undefined (dereferencing or stepping an end position); the model does not say what happens then.

## Findings

| source | as written | input that shows it | evidently intended | confidence | as-written member | corrected member |
|---|---|---|---|---|---|---|
| join-iterator.h:47-50 | the fold of `try_increment` re-reads the active index for every lane, so the advance that exhausts one lane also steps the next one | lanes [1, 12, 13, 14] and map keys 15, 61, 230 (main.cpp:14-27) yield 1, 12, 13, 14, 61, 230 | every lane in full: 1, 12, 13, 14, 15, 61, 230 | high; not executed | Demo.DemoSkipsFirstKey | Corrected.SettledJoinedIsConcat |
| join-iterator.h:71-77 | the cascade steps an empty lane past its end, and `begin()` does not skip an empty lane 0 | lanes [1, 2], [], [3, 4]: the second advance steps lane 1 past its end | empty lanes passed over, yielding 1, 2, 3, 4 | high; not executed | Demo.GapLaneSteppedPastEnd | Corrected.SettledJoinedIsConcat |
