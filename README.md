# exhaustigen in Dafny

A model of `exhaustigen::Gen`, the exhaustive sequence generator in `exhaustigen.hpp`, with
proofs about it.

A caller wraps a body in a do-while loop:

    do { body(g) } while (!g.is_done());

The body asks the generator for bounded values: on a fresh position, or when the bound at that
position is the same on every pass, `gen(b)` returns a value in `0..b`. The generator keeps a
trace of `(current, bound)` counters, one per draw position, and a cursor `p` that counts the
draws made in the current pass.

- `gen` reads the counter at the cursor. When the cursor is at the end of the trace, it first
  appends a fresh `(0, 0)`. It then overwrites the counter's bound and returns its current value.
- `is_done` is the odometer step. It finds the last counter still below its bound, increments it,
  drops every counter after it and rewinds the cursor. If there is no such counter, the
  enumeration is over.
- Five combinators are built on `gen`: `flip`, `gen_vec`, `gen_comb`, `gen_perm` and
  `gen_subset`.

Files:

- `trace.dfy` (module `Trace`): the counter datatype, the odometer step as functions
  (`RightmostOpen`, `Advance`), and `Replays`, which relates a trace before and after a run of
  draws.
- `gen.dfy` (module `Exhaustigen`): class `Gen`. Its fields `v: seq<Counter>` and `p: nat` are
  updated in place by `IsDone`, `Draw` (the source's `gen`) and the combinator methods, and each
  loop of the source is a loop with invariants here.
- `choice.dfy` (module `Choice`): what `gen_perm` and `gen_subset` return, as functions of the
  values drawn. `Picks` gives the ordering a list of codes picks from the shrinking index pool.
  `Chosen` gives the elements whose flip was 1.
- `driver.dfy` (module `Driver`): the caller's do-while loop around a body that draws the same
  fixed list of bounds on every pass. The loop produces every tuple within the bounds exactly
  once, in odometer order, with the last draw changing fastest, and then stops. Two corollaries
  are proved: one draw of bound n gives 0, 1, ..., n; a draw of bound 1 then bound 2 gives the
  six pairs in order.
- `enumerate.dfy` (module `Enumerate`): the same loop around a single `gen_perm` or a single
  `gen_subset` of a fixed list. It runs n! or 2^n passes. Each pass yields a permutation (or a
  sub-multiset) of the items, every list of pick codes (or choice of flips) is reached, so
  every ordering of the items is produced, and over distinct items none repeats.

Integers are `nat`. Every `size_t` step in the source stays in range: `p += 1` is bounded by the
trace length, `first += 1` is guarded by `first < second`, and `sz - 1` is guarded by `sz > 0`.

`Draw` does not promise that the value it returns is at most the bound it was given. At a
position the trace already holds, `gen` returns the stored value even when the new bound is
smaller (exhaustigen.hpp:38-40). The enumeration results therefore assume bodies whose bounds do
not depend on earlier draws.

The generator defines no error results of its own. `gen_comb` can throw `std::out_of_range`
(exhaustigen.hpp:63) and `gen_perm` can index past its pool (exhaustigen.hpp:78); both cases
are preconditions here (see "Left out").

## Model

| member | source | states |
|---|---|---|
| `Exhaustigen.Gen.constructor` | exhaustigen.hpp:16-18 | A new generator has an empty trace and cursor 0. |
| `Trace.RightmostOpen` | exhaustigen.hpp:22-23 | None exactly when every counter has reached its bound. Otherwise it returns a position whose counter is below its bound, and every later counter has reached its bound. |
| `Trace.Advance` | exhaustigen.hpp:22-27 | None exactly when the trace is exhausted. Otherwise: the last open counter k gets current + 1 and keeps its bound, the trace becomes length k + 1, everything before k is unchanged, and every dropped counter had reached its bound. |
| `Exhaustigen.Gen.IsDone` | exhaustigen.hpp:21-31 | Answers true exactly when every counter has reached its bound, and then changes nothing. Otherwise the trace becomes `Advance` of the old one and the cursor is 0. |
| `Exhaustigen.Gen.Draw` | exhaustigen.hpp:33-41 | The cursor moves up by one. At the end of the trace, a counter (0, bound) is appended and 0 is returned. Otherwise only the bound at the cursor changes, and its stored current value is returned. |
| `Exhaustigen.Gen.Flip` | exhaustigen.hpp:47 | One draw of bound 1, and the result is true exactly when that draw produced 1. |
| `Exhaustigen.Gen.GenVec` | exhaustigen.hpp:49-55 | 1 + L draws: the first has bound lenBound and gives the length L, and draw i + 1 has bound eltBound and gives element i. A fresh position gives the empty vector. |
| `Exhaustigen.Gen.GenComb` | exhaustigen.hpp:57-67 | Empty input: no draw, empty result. Otherwise a count n with bound len (the input's length) is drawn, then n index draws with bound len - 1, and element i is the item at the i-th index. |
| `Exhaustigen.IndexPool` | exhaustigen.hpp:73-76 | The starting pool holds the indices 0 .. n-1 in order. |
| `Exhaustigen.Gen.GenPerm` | exhaustigen.hpp:69-84 | Exactly one draw per item, with bounds len - 1 down to 0 (len being the input's length). The result is the ordering `Picks` gives for the drawn codes and is a permutation of the items. From a fresh position the result is the items in order. |
| `Exhaustigen.Gen.PermPick` | exhaustigen.hpp:77-81 | One turn of the loop: the pool shrinks by one, and the picked item joins the result without losing the loop's record. |
| `Exhaustigen.PermStep` | exhaustigen.hpp:78-80 | The drawn index lands inside the pool. The pool minus that entry and the result plus its item are again what the codes so far pick. |
| `Exhaustigen.PermDone` | exhaustigen.hpp:77-83 | When the pool is empty, the trace holds the codes drawn, the result is their `Picks`, and it is a permutation of the items. |
| `Exhaustigen.Gen.GenSubset` | exhaustigen.hpp:86-94 | One draw of bound 1 per item, in order. The result is the items whose flip was 1. From a fresh position the result is empty. |
| `Exhaustigen.SubsetStep` | exhaustigen.hpp:88-92 | A flip keeps the next item exactly when it came up 1. |
| `Exhaustigen.SubsetDone` | exhaustigen.hpp:86-94 | After the last flip, the result is `Chosen` of the flips read back from the trace. |
| `Choice.PickStep` | exhaustigen.hpp:78-80 | One more code removes the selected candidate from the pool and appends it to the picks. |
| `Choice.GatherRemoveAt` | exhaustigen.hpp:78-80 | Erasing an index from the pool and then looking up the items is erasing from the items the pool stands for. |
| `Choice.PicksAndPool` | exhaustigen.hpp:77-81 | The picks plus what is left in the pool are, as a multiset, exactly the items. |
| `Choice.PicksPermutation` | exhaustigen.hpp:69-84 | A full list of valid codes picks a permutation of the items. |
| `Choice.PicksZeros` | exhaustigen.hpp:77-81 | Codes that are all 0 pick the items in their original order and leave the rest in the pool. |
| `Choice.PicksInjective` | exhaustigen.hpp:77-81 | Over distinct items, equal picks come from equal codes. |
| `Choice.PicksOnto` | exhaustigen.hpp:77-81 | Every permutation of the items is what some full list of valid codes picks. |
| `Choice.PicksOntoPrefix` | exhaustigen.hpp:77-81 | The first k elements of any permutation of the items are picked by k valid codes, which leave exactly the remaining elements in the pool. |
| `Choice.ChosenSnoc` | exhaustigen.hpp:88-92 | One more item and flip append the item exactly when the flip is 1. |
| `Choice.ChosenSubMultiset` | exhaustigen.hpp:86-94 | What is kept is a sub-multiset of the input. |
| `Choice.ChosenExtremes` | exhaustigen.hpp:86-94 | All flips 1 keep the whole input, and no flip 1 keeps nothing. |
| `Choice.ChosenPositions` | exhaustigen.hpp:86-94 | The result is the input at strictly increasing positions. These are exactly the positions whose flip was 1. |
| `Choice.ChosenMember` | exhaustigen.hpp:88-92 | Over distinct items, an item is kept if and only if its flip is 1. |
| `Choice.ChosenInjective` | exhaustigen.hpp:86-94 | Over distinct items, 0/1 flips that keep the same items are equal. |
| `Driver.AdvanceZip` | exhaustigen.hpp:21-31 | On the trace of a completed fixed pass, `Advance` stops exactly when the odometer successor does not exist. When it does exist, the successor is what the next pass replays from the advanced trace, padded with fresh zeros. |
| `Driver.StopsAtLast` | exhaustigen.hpp:21-31 | `IsDone` answers true after a fixed pass exactly when that pass drew the last tuple. |
| `Driver.RemNext` | exhaustigen.hpp:22-27 | The odometer step keeps the tuple within its bounds and lowers the number of tuples still to come by exactly one. |
| `Driver.LastTuple` | exhaustigen.hpp:21-31 | The odometer stops at exactly one tuple, the one equal to the bounds. |
| `Driver.RemInjective` | exhaustigen.hpp:22-27 | Different tuples within the bounds have different positions in the odometer order. |
| `Driver.FixedBody` | exhaustigen.hpp:33-41 | A pass of fixed draws from cursor 0 replays the values the trace held, draws zeros beyond it, and leaves the trace of exactly that tuple. |
| `Driver.RunFixed` | exhaustigen.hpp:21-41 | The do-while loop over a fixed body produces every tuple within the bounds once, in odometer order. It starts from all zeros, ends at the bounds, and each output's successor is the next output. |
| `Driver.WhileHead` | exhaustigen.hpp:6-7 | Asked at the head of a while loop, a fresh generator is already done, so the body never runs. |
| `Driver.DoneStaysDone` | exhaustigen.hpp:21-31 | Once `IsDone` has answered true, asking again answers true and leaves the state as it was. |
| `Driver.EveryTupleVisited` | exhaustigen.hpp:21-41 | Every tuple within the bounds is among the outputs, at the place its rank gives. |
| `Driver.NoTupleRepeated` | exhaustigen.hpp:21-41 | No two passes produce the same tuple. |
| `Driver.Deterministic` | exhaustigen.hpp:21-41 | Two loops over the same bounds produce identical outputs in identical order. |
| `Driver.SingleDraw` | exhaustigen.hpp:33-41 | A body of one draw with bound n runs n + 1 passes that return 0, 1, ..., n in order. |
| `Driver.TwoDraws` | exhaustigen.hpp:33-41 | A body drawing with bound 1 then bound 2 yields (0,0), (0,1), (0,2), (1,0), (1,1), (1,2), in that order. |
| `Driver.RunSingleDraw` | exhaustigen.hpp:33-41 | The actual loop over a single draw with bound n runs n + 1 passes that return 0, 1, ..., n in order. |
| `Driver.RunTwoDraws` | exhaustigen.hpp:33-41 | The actual loop over a draw with bound 1 then one with bound 2 returns the six pairs in odometer order. |
| `Enumerate.PermSpace` | exhaustigen.hpp:77-81 | The bounds a `gen_perm` of n items draws admit exactly n! tuples. |
| `Enumerate.SubsetSpace` | exhaustigen.hpp:86-94 | The bounds a `gen_subset` of n items draws admit exactly 2^n tuples. |
| `Enumerate.PermCodesWithin` | exhaustigen.hpp:77-81 | Full valid pick codes are exactly the tuples within the `gen_perm` bounds. |
| `Enumerate.PermsEveryOrdering` | exhaustigen.hpp:69-84 | Outputs that include every list of pick codes include every permutation of the items. |
| `Enumerate.PermBody` | exhaustigen.hpp:69-84 | A `gen_perm` pass from cursor 0 draws the replayed tuple, leaves its trace, and returns that tuple's ordering. |
| `Enumerate.SubsetBody` | exhaustigen.hpp:86-94 | A `gen_subset` pass from cursor 0 draws the replayed flips, leaves their trace, and returns their subset. |
| `Enumerate.RunPerm` | exhaustigen.hpp:69-84 | The loop over one `gen_perm` runs n! passes. Each is a permutation of the items, the first is the items in order, and every pick order is reached. Every permutation of the items is among the outputs. Over distinct items no ordering repeats. |
| `Enumerate.RunSubset` | exhaustigen.hpp:86-94 | The loop over one `gen_subset` runs 2^n passes. Each is a sub-multiset of the items, from the empty first pass to all items on the last, and every choice of flips is reached. Over distinct items no subset repeats. |

## Left out

- test.cpp is a demo that only prints, so it is not part of this model.
- `std::vector` iterator mechanics (`rbegin`, `base()`, `erase` and reallocation) are not modelled. Truncation and erasure are sequence slicing.
- `size_t` wrap-around is not modelled, because no operation of the source can reach it (see above).
- Exhaustigen.Gen.GenComb: requires that every index draw it will replay falls inside the input. The source would throw `std::out_of_range` from `in.at`, and the model does not describe the throw.
- Exhaustigen.Gen.GenPerm: requires that every draw it will replay falls inside the shrinking pool. Otherwise the source forms an iterator past the end of `idxs`, which is undefined behaviour.
- Enumeration for bodies whose later bounds depend on earlier draws (such as a loop around `gen_vec` or `gen_comb`) is not proved. It needs reasoning about an arbitrary caller body. Only bodies that draw a fixed list of bounds (`Driver`), `gen_perm` and `gen_subset` are covered. The count of 13 sequences for `gen_vec(2, 2)` is therefore not stated.
- Behaviour when a pass draws a different number of values, or different bounds, at positions before the truncation point than the previous pass did is left as the source leaves it. `Draw` models it faithfully but no enumeration result covers it.
- Use of `gen` after `is_done` has answered true is not given a meaning beyond what `Draw` does on the unchanged trace.
