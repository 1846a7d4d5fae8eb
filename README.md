# Bin packing with variable neighbourhood search, in Dafny

This project models the core of a Python program for one-dimensional bin packing. An instance is a bin capacity plus a list of item weights. A solution is an ordered list of bins. The greedy constructors (Null/Worst, Next-Fit, First-Fit, First-Fit-Decreasing) build a first solution, and a neighbourhood explorer improves it. The explorer works with *transfers* (one item moves to another bin) and *swaps* (two items of two bins trade places). A move is a set of transfers. Fitness is the sum over bins of the squared content, and the search maximises it.

The modules follow the program's files:

- `bpp.dfy` (module `Bpp`) covers `bpp.py`: `BPInstance` as a datatype, while `Bin` and `BPSolution` are classes whose methods update their fields in place. It also holds the value-level view of a solution, a `Packing` (`seq<seq<int>>`), with the functions its methods are proved against.
- `greedy.dfy` (module `Greedy`) gives the placement rules as a fold over the items: one item is one `Step`, the whole loop is `Pack`. It proves what every rule guarantees.
- `approximation.dfy` and `aproximation.dfy` model the two near-identical algorithm files on the mutable `Bpp.Solution`. Each `solve` loop is proved to leave the solution equal to `Greedy.Pack`.
- `snapshot.dfy` (module `Snapshot`) models the older `main.py`. There, `Bin.add` accepts any weight and `pack_in_new_bin` always opens a new bin.
- `optimization.dfy` (module `Optimization`) defines, on values:
  - `Transfer` and `Move` and their reversal;
  - the fitness and the constant-time delta of `delta_fitness_from_move`;
  - the effect of `do_move` for any iteration order of a move's frozenset;
  - the candidate lists of `possible_transfers` and `possible_swaps`;
  - the selection rules of `improve` and `shake`.
- `exploration.dfy` (module `Exploration`) models `BPSolutionExplorer` as a class over a mutable `Bpp.Solution`. Its loops are proved to produce the value-level lists and effects.

Modelling choices:

- Weights and capacities are integers. Python raises in some places; there the operation returns `ok == false` and leaves the state as the source leaves it at that point. The places are:
  - `Bin.append` of a weight `<= 0`;
  - `list.remove` of a missing item;
  - `list.pop` out of range;
  - `random.choice` of an empty list.
- `delta_fitness_from_move` returns `None` where the source would raise.
- `random.choice` is replaced by a number the caller supplies. Among the allowed moves, `shake` picks the one at index `choices[k] % |allowed|`.
- A frozenset has no order the program relies on. So `do_move` is specified relationally: some enumeration of the move's transfers, applied in that order, leads to the new state (`Optimization.DoMoveStep`).
- `moves.sort(key=..., reverse=True)` is a stable sort, so `moves[0]` is the first move with the largest delta. `Optimization.FirstMax` picks exactly that one.

Three behaviours of the code that the model keeps:

- `shake` calls `random.choice` on the list of allowed moves even when it is empty, which raises (optimization.py:106-109). `Exploration.Explorer.Shake` returns `ok == false` in that case.
- Only `improve` skips full bins, by passing `skip_full_bins=True` (optimization.py:122). `shake` uses the default `False`.
- The weights of an instance are checked for positivity only inside `Bin.append` (bpp.py:39-42). The constructors are therefore modelled on any weights, and they stop at the first non-positive one.

## Model

| member | source | states |
|---|---|---|
| Bpp.Instance.SortDecreasing | bpp.py:18-22 | the new instance has the same capacity and the same items as a multiset, in non-increasing order |
| Bpp.SortedDecreasing | bpp.py:20 | `sorted(..., reverse=True)` gives a non-increasing permutation of its input |
| Bpp.NonIncreasingUnique | bpp.py:20 | two non-increasing sequences with the same multiset are equal, so the sorted list is determined |
| Bpp.Instance.LowerBound | bpp.py:24-26 | `r` is the ceiling of total weight over capacity: `(r-1)*size < sum <= r*size` |
| Bpp.LowerBoundIsLower | bpp.py:24-26 | every packing of the instance's items with no bin over capacity has at least `lower_bound` bins |
| Bpp.BinsNeeded | bpp.py:26 | `n` bins of capacity `b` can hold weight `w` only if `n >= ceil(w / b)` |
| Bpp.PackedWeight | bpp.py:26 | a packing within capacity of `items` carries their total weight, at most `size` per bin |
| Bpp.Bin.constructor | bpp.py:29-33 | a new bin has the given size, no items and is open |
| Bpp.Bin.Fits | bpp.py:50-51 | `fits` holds exactly when content plus the weight is at most the size |
| Bpp.Bin.IsEmpty | bpp.py:53-55 | for positive weights, content zero exactly when the bin holds no item |
| Bpp.Bin.IsFull | bpp.py:57-59 | a full bin has room for no positive weight |
| Bpp.Bin.Append | bpp.py:39-42 | succeeds exactly for a positive weight, which is appended; otherwise nothing changes |
| Bpp.Bin.Pop | bpp.py:44-45 | Python indexing from either end: succeeds exactly for `-len <= index < len`, returns that item and removes exactly it |
| Bpp.Bin.Remove | bpp.py:47-48 | succeeds exactly when the item is present and removes its first occurrence only |
| Bpp.PackInNewBinShape | bpp.py:92-99 | an empty last bin takes the item, otherwise `[item]` is appended; earlier bins are untouched and the item is added exactly once |
| Bpp.NewBinHolding | bpp.py:97-98 | a fresh bin holds `[item]` exactly when the item is positive |
| Bpp.Solution.constructor | bpp.py:71-73 | a new solution holds exactly one empty bin |
| Bpp.Solution.AddEmptyBin | bpp.py:75-76 | one fresh empty open bin is added at the end; nothing else changes |
| Bpp.Solution.PackInNewBin | bpp.py:92-99 | succeeds exactly when there is a last bin and the item is positive; the contents become `PackInNewBinValue` and no earlier bin's flag changes |
| Bpp.Solution.AppendTo | bpp.py:95 | bin `j` gains the weight exactly when it is positive; no other bin changes |
| Bpp.Solution.Close | approximation.py:49 | only bin `j` is marked closed; no contents and no other flag change |
| Bpp.Solution.MoveItem | bpp.py:101-103 | succeeds exactly when the item is in the source bin; then its first occurrence moves to the end of the destination bin |
| Bpp.MoveItemConserves | bpp.py:101-103 | a `move_item` keeps the multiset of items, the total weight and the bin count, and changes only the two bins |
| Bpp.Solution.RemoveFrom | bpp.py:102 | bin `j` loses the first occurrence of the item, exactly when present |
| Bpp.Solution.RemoveEmptyBins | bpp.py:105-106 | the contents become those of the non-empty bins, in order; the kept bins are the same objects |
| Bpp.RemoveEmptyKeepsNonEmpty | bpp.py:105-106 | after the compaction no bin has content zero |
| Bpp.RemoveEmptyIdempotent | bpp.py:105-106 | compacting twice is the same as compacting once |
| Bpp.RemoveEmptyConserves | bpp.py:105-106 | with positive weights, compaction keeps every item in order |
| Bpp.RemoveEmptyWithinCapacity | bpp.py:105-106 | compaction keeps every bin within capacity |
| Bpp.Solution.Copy | bpp.py:108-109 | a fresh solution over fresh bins with the same contents and flags |
| Greedy.FirstFitIndex | approximation.py:59-64 | the index of the first bin the item fits in; no earlier bin fits; the bin count when none fits |
| Greedy.PositivePrefix | bpp.py:39-42 | the length of the all-positive prefix: where `append` first raises |
| Greedy.StepConserves | approximation.py:32-65 | every placement rule adds the item exactly once and moves nothing else |
| Greedy.PackConserves | approximation.py:32-65 | a `solve` loop ends with exactly the starting items plus the instance's items |
| Greedy.PackWithinCapacity | approximation.py:43-65 | when no weight exceeds the capacity, no rule overfills a bin |
| Greedy.PackIsValidPacking | approximation.py:13-65 | from the fresh solution, every rule and both new-bin versions give a packing of exactly the items, within capacity, with at least `lower_bound` bins |
| Greedy.NullOneBinPerItem | approximation.py:29-35 | Null on positive weights gives one bin per item, in item order, and reuses the initial empty bin |
| Greedy.NextFitStepRule | approximation.py:43-51 | Next-Fit touches only the last bin, and opens a new one exactly when the item does not fit and the last bin is not reused |
| Greedy.FirstFitStepRule | approximation.py:57-62 | First-Fit puts the item in the lowest-index bin that fits it |
| Greedy.FirstFitStepNoFit | approximation.py:63-64 | when no bin fits, First-Fit calls `pack_in_new_bin` |
| Greedy.PackPrefixStep | approximation.py:33 | placing one more item of the list is one more step of the fold |
| Approximation.NullSolve | approximation.py:29-35 | the solution becomes the Null fold over the positive prefix; `ok` exactly when every weight is positive |
| Approximation.NextFitPlace | approximation.py:44-50 | one Next-Fit placement: the contents follow `Step`, and the bin moved past is closed |
| Approximation.NextFitSolve | approximation.py:38-51 | the solution becomes the Next-Fit fold over the positive prefix, and every bin the run moved past is closed |
| Approximation.FirstFittingBin | approximation.py:59-62 | the scan stops at `FirstFitIndex` |
| Approximation.FirstFitIndexUnique | approximation.py:59-63 | the index before which nothing fits and at which the item fits is `FirstFitIndex` |
| Approximation.FirstFitPlace | approximation.py:58-64 | one First-Fit placement follows `Step`, with `ok` exactly for a positive weight |
| Approximation.FirstFitSolve | approximation.py:54-65 | the solution becomes the First-Fit fold over the positive prefix |
| Approximation.Algorithm.constructor | approximation.py:13-26 | the instance is sorted exactly for First-Fit-Decreasing, and the solution is fresh with one empty bin |
| Approximation.Algorithm.Solve | approximation.py:19-72 | `solve` leaves the fold of its class's rule over the items it could place, and succeeds exactly when all weights are positive; under Next-Fit every bin the run moved past is closed |
| Approximation.ItemsRun | approximation.py:24-26 | the items a class iterates are a permutation of the instance's |
| Approximation.FreshSolveIsValidPacking | approximation.py:13-72 | for weights in `(0, size]`, a fresh `solve` succeeds and packs exactly the items, within capacity, with at least `lower_bound` bins |
| Aproximation.Algorithm.constructor | aproximation.py:14-35 | the instance is sorted for First-Fit-Decreasing, whose `debug` is always false; the solution is fresh |
| Aproximation.Algorithm.Solve | aproximation.py:38-80 | as in `approximation.py`, with `Worst` as the Null rule, including the closed flags under Next-Fit |
| Snapshot.Bin.Fits | main.py:40-41 | `fits` holds exactly when content plus the weight is at most the size |
| Snapshot.Bin.Add | main.py:37-38 | any weight is appended |
| Snapshot.Solution.constructor | main.py:56-58 | one empty bin |
| Snapshot.Solution.PackInNewBin | main.py:60-62 | a new bin `[item]` is always appended, even after an empty last bin |
| Snapshot.NextFitPlace | main.py:146-152 | one Next-Fit placement of the old version |
| Snapshot.NextFitSolve | main.py:140-154 | the solution becomes the Next-Fit fold with always-append, and every bin moved past is closed |
| Snapshot.FirstFittingBin | main.py:162-165 | the scan stops at `FirstFitIndex` |
| Snapshot.FirstFitPlace | main.py:161-167 | one First-Fit placement of the old version |
| Snapshot.FirstFitSolve | main.py:157-169 | the solution becomes the First-Fit fold with always-append |
| Snapshot.Algorithm.constructor | main.py:127-133 | the instance is sorted when `decreasing`, and always for First-Fit-Decreasing (main.py:175-176) |
| Snapshot.Algorithm.Solve | main.py:145-169 | the fold of Next-Fit or First-Fit over every item; under Next-Fit every bin the run moved past is closed |
| Optimization.FromTransfer | optimization.py:43-46 | a move of exactly one transfer, the given one |
| Optimization.FromSwap | optimization.py:48-57 | both transfers are in the move; it has two elements exactly when the bins or the items differ (otherwise the frozenset collapses them to one) |
| Optimization.TransferReversedTwice | optimization.py:17-24 | reversing a transfer twice gives it back |
| Optimization.ReversedTwice | optimization.py:59-62 | reversing a move twice gives it back |
| Optimization.ReversedFromTransfer | optimization.py:59-62 | the reverse of a transfer move carries the item back |
| Optimization.ReversedFromSwap | optimization.py:59-62 | the reverse of a swap is the swap of the same bins with the items exchanged |
| Optimization.DeltaFitness | optimization.py:77-96 | the delta is defined exactly for the moves whose unpacking and indexing do not raise |
| Optimization.TransferMoveDelta | optimization.py:83-88 | the one-transfer formula is defined exactly when both bin indices are in range |
| Optimization.SwapMoveDelta | optimization.py:90-96 | the swap formula is defined exactly when both source bins are in range, whichever unpacking order the frozenset gives |
| Optimization.PairDeltaUnique | optimization.py:91 | both unpacking orders of a two-transfer move give the same delta |
| Optimization.SwapDeltaSymmetric | optimization.py:91-96 | exchanging the roles of the two transfers leaves the swap formula unchanged |
| Optimization.FitnessUpdate | optimization.py:70-75 | replacing one bin changes the fitness by the difference of its squared contents |
| Optimization.FitnessRemoveEmpty | optimization.py:70-75 | empty bins add nothing to the fitness, so compacting keeps it |
| Optimization.TransferDeltaIsFitnessChange | optimization.py:77-88 | for a transfer between different bins of an item in the source, the delta equals fitness after `do_move` minus fitness before |
| Optimization.TransferFitnessChange | optimization.py:175-182 | the fitness change of a transfer's `do_move` is the transfer formula |
| Optimization.SwapDeltaIsFitnessChange | optimization.py:77-96 | for a swap between different bins of items they hold, the delta equals fitness after `do_move` minus fitness before |
| Optimization.SwapFitnessChange | optimization.py:175-182 | the fitness change of a swap's `do_move` is the swap formula |
| Optimization.ApplyInOrder | optimization.py:177-180 | the `move_item` loop for one iteration order keeps the number of bins |
| Optimization.ApplyInOrderSnoc | optimization.py:177-180 | one more transfer after successful ones is one more `move_item`, which succeeds exactly when its item is present |
| Optimization.ApplyInOrderStops | optimization.py:177-180 | after a `move_item` raises, the later transfers do nothing |
| Optimization.SwapOrderIrrelevant | optimization.py:177-180 | the two transfers of a swap commute: either iteration order gives the same bins |
| Optimization.TransferOutcome | optimization.py:175-182 | every iteration order of a transfer move performs the one `move_item` |
| Optimization.SwapOutcome | optimization.py:175-182 | every iteration order of a swap between different bins performs both `move_item`s |
| Optimization.TransferStepOutcome | optimization.py:175-182 | `do_move` of a transfer whose item is present succeeds and leaves the compacted result |
| Optimization.SwapStepOutcome | optimization.py:175-182 | `do_move` of a swap whose items are present succeeds and leaves the compacted result |
| Optimization.TransferStep | optimization.py:175-182 | `do_move` of a feasible transfer succeeds, loses no item, leaves no empty bin and no bin over capacity, and changes the fitness by the delta |
| Optimization.SwapStep | optimization.py:175-182 | `do_move` of a feasible swap succeeds, loses no item, leaves no empty bin and no bin over capacity, and changes the fitness by the delta |
| Optimization.MoveItemPositive | bpp.py:101-103 | moving a positive item keeps every weight positive |
| Optimization.TransferWithinCapacity | optimization.py:148 | a transfer that `fits` leaves no bin over capacity |
| Optimization.SwapWithinCapacity | optimization.py:166-169 | a swap that passes both `fits` checks leaves no bin over capacity |
| Optimization.TransferCandidatesExact | optimization.py:141-151 | `possible_transfers` lists exactly the feasible transfers: each item of a (non-full if asked) bin to every other bin it fits in |
| Optimization.TransfersToMembers | optimization.py:146-150 | the innermost transfer loop lists exactly the other bins the item fits in |
| Optimization.TransfersOfItemsMembers | optimization.py:145-150 | the item loop lists exactly the feasible transfers of the bin's items |
| Optimization.TransfersFromMembers | optimization.py:143-150 | the bin loop lists exactly the feasible transfers from the first `n` bins |
| Optimization.SwapCandidatesExact | optimization.py:153-173 | `possible_swaps` lists exactly the feasible swaps: different items of bins `b1 < b2`, non-full if asked, that pass both `fits` checks |
| Optimization.SwapsWithItemsMembers | optimization.py:163-172 | the innermost swap loop lists exactly the feasible partners in bin `b2` |
| Optimization.SwapsWithBinsMembers | optimization.py:159-172 | the second-bin loop lists exactly the partners in later, non-full-if-asked bins |
| Optimization.SwapsOfItemsMembers | optimization.py:158-172 | the first-item loop lists exactly the feasible swaps of the bin's items |
| Optimization.SwapsFromMembers | optimization.py:156-172 | the first-bin loop lists exactly the feasible swaps from the first `n` bins |
| Optimization.CandidateAt | optimization.py:138-139 | every candidate of `possible_moves` is a transfer candidate or, after them, a swap candidate |
| Optimization.TransferCandidateMove | optimization.py:149-150 | every transfer candidate is the move of a feasible transfer |
| Optimization.SwapCandidateMove | optimization.py:170-172 | every swap candidate is the move of a feasible swap |
| Optimization.CandidateEvaluable | optimization.py:138-139 | `delta_fitness_from_move` is defined on every candidate and its bins are in range |
| Optimization.CandidateStep | optimization.py:175-182 | `do_move` of any candidate succeeds, loses no item, leaves no empty bin or overfull bin, and changes the fitness by exactly its delta |
| Optimization.Deltas | optimization.py:127 | the sort key of every candidate, in list order |
| Optimization.FirstMax | optimization.py:127-128 | `moves[0]` after the stable descending sort: a largest delta, strictly larger than every earlier one |
| Optimization.BestIndex | optimization.py:124-128 | `None` exactly when there is no candidate; otherwise an index whose delta is at least every candidate's and strictly above every earlier one's, which is `moves[0]` after the stable descending sort |
| Optimization.ImprovingMove | optimization.py:124-131 | `None` exactly when the loop breaks (no candidate, or the best delta is not positive: `ImprovePass` with nothing changed, and then no candidate has a positive delta); otherwise the move at `BestIndex`, with a positive delta and only existing bins |
| Optimization.ImprovingMoveApplied | optimization.py:133-134 | `do_move` of the chosen move succeeds and is an improving pass (`ImproveOutcome`): the fitness rises, the items stay and no bin within capacity overflows |
| Optimization.ImproveStateSnoc | optimization.py:120-134 | an improving pass from the current state keeps what `improve` promises so far: the run extends, the items are those of the start, capacity is kept and the fitness stays between the start's and the square of the total weight |
| Optimization.ImprovePassFitness | optimization.py:127-134 | an improving pass raises the fitness; a pass that does not improve leaves no candidate with a positive delta |
| Optimization.ImproveTraceSnoc | optimization.py:120-134 | one more improving pass extends a run of `improve` |
| Optimization.Allowed | optimization.py:106-107 | exactly the candidates not in `moves_applied_reversed`, in order |
| Optimization.ShakeNeverUndoes | optimization.py:102-112 | no move of a shake undoes an earlier one, and every applied move was a candidate at that point |
| Optimization.FitnessAtMostSquare | optimization.py:70-75 | with positive weights the fitness lies between zero and the square of the total weight, which makes `improve` terminate |
| Exploration.Explorer.constructor | optimization.py:65-68 | the explorer wraps the given solution |
| Exploration.Explorer.PossibleTransfers | optimization.py:141-151 | the returned list is `TransferCandidates` of the current contents, in loop order |
| Exploration.Explorer.PossibleSwaps | optimization.py:153-173 | the returned list is `SwapCandidates` of the current contents, in loop order |
| Exploration.Explorer.PossibleMoves | optimization.py:138-139 | the transfers followed by the swaps |
| Exploration.TransfersOfItem | optimization.py:146-150 | the innermost transfer loop gives the moves of `TransfersTo` |
| Exploration.TransfersOfBin | optimization.py:145-150 | the item loop gives the moves of `TransfersOfItems` |
| Exploration.TransfersFromBins | optimization.py:143-151 | the full loop gives the moves of `TransferCandidates` |
| Exploration.SwapsWithBin | optimization.py:163-172 | the innermost swap loop gives the moves of `SwapsWithItems` |
| Exploration.SwapsOfItem | optimization.py:159-172 | the second-bin loop gives the moves of `SwapsWithBins` |
| Exploration.SwapsOfBin | optimization.py:158-172 | the first-item loop gives the moves of `SwapsOfItems` |
| Exploration.SwapsFromBins | optimization.py:156-173 | the full loop gives the moves of `SwapCandidates` |
| Exploration.Explorer.DoMove | optimization.py:175-182 | the transfers are applied through `move_item` in some enumeration of the frozenset, stopping at a missing item, then the empty bins are removed; the surviving bins are original bin objects whose `closed` flags are unchanged |
| Exploration.Explorer.Copy | optimization.py:184-185 | a fresh explorer over a fresh solution and fresh bins with the same contents |
| Exploration.Explorer.ImproveStep | optimization.py:122-134 | `ImproveOutcome`: the pass is `ImprovePass`, so when the first candidate of largest delta (`BestIndex`) has a positive delta, `do_move` of exactly that move is applied and `improved` holds, otherwise nothing changes; an improving pass raises the fitness and keeps the items and the capacity, a failing one leaves every candidate with delta at most zero; the surviving bins are old bins and their `closed` flags are unchanged |
| Exploration.Explorer.Improve | optimization.py:116-136 | a fresh copy reached from the original by an `ImproveTrace` of best-improvement passes, ending where a further pass finds no improvement; same items, capacity kept, fitness at least the original's, and no candidate of non-full bins with a positive delta |
| Exploration.Explorer.ShakeStep | optimization.py:106-112 | a pass applies the move the caller's number picks among the allowed candidates, or fails and changes nothing exactly when none is allowed; `closed` flags are unchanged |
| Exploration.Explorer.Shake | optimization.py:98-114 | a fresh copy reached by a trace of picked, applied moves; `ok` exactly when `k` were applied, otherwise nothing was allowed; items and capacity kept |

## Left out

- Plotting (`draw.py`), `print_stats`, file reading (`files.py`), result tables (`results.py`), logging (`logs.py`) and the timer of `utils.py` are input and output, so they are not modelled.
- `vns.py`, the search controller with its time budget, is not part of this model. Only the explorer operations it drives are modelled.
- `main.py`'s normalised `fitness` (lines 70-78) uses floating-point division, and its demo block (lines 221-234) is input and output; neither is modelled.
- The stubs `BPSolution.shake` and `BPOptimizer` in `main.py` (lines 80-81, 106-119) do nothing, so they are not modelled.
- `MinimumBinSlack` in `aproximation.py` has an empty `solve`, so it is not modelled.
- `maybe_plot` in `aproximation.py` only draws and waits for input; the model keeps the `debug` flag and treats the call as a no-op.
- Weights and capacities are floats in the source and integers here, so rounding and the floating-point failure of `is_full`'s exact equality are not captured.
- `deepcopy` is modelled field by field (`Bpp.Solution.Copy`, `Exploration.Explorer.Copy`); object identity beyond the solution and its bins is not modelled.
- The iteration order of a frozenset is not modelled as a fixed order. `do_move` is proved for every enumeration instead.
- Move indices that go stale after `remove_empty_bins` renumbers the bins are not modelled; every candidate is evaluated against the contents it was built from.
- Exploration.Explorer.Shake: takes the random choices as a sequence of at least `k` caller numbers, and `k` is a natural number (a negative `k` makes the Python loop run zero times, which `k == 0` covers).
- Exploration.Explorer.Shake: where Python raises `IndexError` from `random.choice` on an empty list, the model returns `ok == false` together with the partially shaken copy, which Python would not return.
- Exploration.Explorer.DoMove: requires every transfer's bin indices to be in range; Python's negative indices and `IndexError` are not modelled there.
- Bpp.Solution.MoveItem: requires non-negative in-range bin indices; Python's negative indices and `IndexError` are not modelled there.
- Optimization.DeltaFitness: answers `None` for a negative bin index, where Python would index from the end. Candidate moves never have one.
- Bpp.Instance.LowerBound: requires a positive capacity. A zero capacity raises `ZeroDivisionError` in the source, and negative capacities are not modelled.
- Optimization.TransferDeltaIsFitnessChange: stated for transfers between different bins only. For a transfer to its own bin the formula differs from the real change (which is zero), but `possible_transfers` never offers one.
- Optimization.SwapDeltaIsFitnessChange: stated for swaps between different bins only, the only ones `possible_swaps` offers.
