# Contiguous-memory allocator

A Dafny model of the `MemoryManager` class of a memory-management
simulator (`app.py`). The manager owns one address space `[0, total)`. It
holds that space as an ordered list of blocks. Each block has a start, a
size, and a status: free, or used by a process id. The manager offers:

- allocation of `n` units to a process under first-fit, best-fit or
  worst-fit;
- deallocation of a process, followed by a pass that merges adjacent free
  blocks;
- the external-fragmentation metric.

Modules, in dependency order:

- `Blocks` (`blocks.dfy`): the block datatype and the invariants. The
  `Valid` invariant is the conjunction of `Tiles` (the blocks tile
  `[0, total)` without gap or overlap), `PositiveSizes` and
  `NoAdjacentFree`. The module also holds `TotalSize` and `UsedBlocks`.
  The block's status is `Free | Used(owner)`, so a used block always has
  an owner and a free block never has one.
- `Coalescing` (`coalescing.dfy`): the merge pass. `Coalesce` is a
  reference fold that merges each block into its predecessor when both
  are free. `MergeFreeBlocks` is the source's while loop, which pops
  merged neighbours in place, and it is proved equal to the fold.
- `Allocation` (`allocation.dfy`): the manager and its construction. It
  holds each strategy's selection rule as a predicate, and each
  strategy's scan as it is written. It also holds the split and the
  strategy dispatch.
- `Deallocation` (`deallocation.dfy`): release of the first block owned
  by a process, the merge pass, and the allocate/deallocate round trip.
- `Fragmentation` (`fragmentation.dfy`): the metric and how it relates to
  the largest request that can succeed.
- `Scenarios` (`scenarios.dfy`): concrete block lists worked through the
  operations.

Results that the source reports as message strings are modelled as a
`Success | Fail` outcome paired with the manager afterwards (`Reply`).
The manager is immutable: each operation returns the new manager.

## Model

| member | source | states |
|---|---|---|
| `Allocation.Init` | app.py:7-9 | a new manager holds exactly one free block, starting at 0 and of size `total`; for `total > 0` it is valid |
| `Allocation.FirstFitScan` | app.py:39-43 | the scan returns the lowest-index free block of size at least `n`, and returns nothing only when no block fits |
| `Allocation.BestFitScan` | app.py:45-57 | with no choice standing for the infinite initial minimum, the scan returns a fitting block of least slack that beats every earlier fitting block strictly (ties go to the lowest index); it returns nothing only when no block fits |
| `Allocation.WorstFitScan` | app.py:59-71 | with the -1 index and slack sentinels, the scan returns a fitting block of greatest slack that beats every earlier fitting block strictly; it returns nothing only when no block fits |
| `Allocation.Select` | app.py:39-71 | each strategy's choice satisfies that strategy's rule, and there is no choice exactly when no free block fits |
| `Allocation.ChosenUnique` | app.py:39-71 | each selection rule picks at most one block, so each strategy is deterministic |
| `Allocation.SelectIff` | app.py:39-71 | a strategy returns block `k` if and only if its rule picks `k` |
| `Allocation.WorstFitTakesExactFit` | app.py:59-71 | because the slack sentinel starts at -1, worst-fit takes an exact fit (slack 0) when it is the only fitting block |
| `Allocation.Split` | app.py:23-37 | the chosen block keeps its start, gets exactly `n` units and becomes used by `p`; a larger block leaves a free block `(start + n, size - n)` right after it and the list grows by one, while an exact fit keeps the length; every other block is unchanged |
| `Allocation.SplitValid` | app.py:23-37 | splitting a fitting free block keeps the tiling of `[0, total)`, positive sizes and the no-adjacent-free invariant |
| `Allocation.Allocate` | app.py:39-71 | allocation fails exactly when no free block holds `n` units, and then leaves the manager unchanged; on success the manager is the split of a block the strategy's rule chooses |
| `Allocation.AllocateValid` | app.py:23-71 | allocation keeps a valid manager valid |
| `Coalescing.CoalesceKeeps` | app.py:14-21 | after merging, no two neighbours are both free; the used blocks (in order), the total size and positive sizes are preserved; the list does not grow |
| `Coalescing.MergeFreeBlocks` | app.py:11-21 | on a list sorted by start, the in-place sweep that merges the next block into the current one or else advances computes the reference fold |
| `Coalescing.CoalesceValid` | app.py:11-21 | merging a tiling with positive sizes gives a valid list over the same range |
| `Coalescing.CoalesceClean` | app.py:14-21 | a list with no two free neighbours is left unchanged by the pass |
| `Coalescing.CoalesceIdempotent` | app.py:11-21 | running the merge a second time changes nothing |
| `Deallocation.FindOwnedScan` | app.py:74-75 | the scan returns the first used block owned by `p`, and returns nothing exactly when `p` owns no used block |
| `Deallocation.ReleaseKeeps` | app.py:76-77 | freeing block `k` removes exactly that block from the used blocks and keeps the total size, contiguity and positive sizes |
| `Deallocation.Deallocate` | app.py:73-80 | deallocation fails exactly when `p` owns no used block, and then leaves the manager unchanged; on success only the first block owned by `p` leaves the used blocks, the result has no free neighbours, and the total size is kept |
| `Deallocation.DeallocateValid` | app.py:73-80 | deallocation keeps a valid manager valid |
| `Deallocation.DeallocateLeavesLaterDuplicate` | app.py:74-79 | when `p` owns two used blocks, deallocating `p` succeeds and a block owned by `p` remains |
| `Deallocation.DeallocateClearsSoleOwner` | app.py:74-79 | when `p` owns at most one used block, no block is owned by `p` after deallocation |
| `Deallocation.SplitThenRelease` | app.py:11-80 | in a list with no free neighbours, splitting a block for an owner with no block before it (lines 23-37), freeing that block as deallocation does (lines 76-77) and merging (lines 11-21) gives back the list before the split |
| `Deallocation.AllocateDeallocateRoundTrip` | app.py:23-80 | on a valid manager, allocating to a process that owns nothing and then deallocating it restores the original block list exactly; both steps report the same outcome |
| `Fragmentation.FreeSizes` | app.py:83 | there is one entry per free block, since the entries and the used blocks together number the blocks; every free block's size is an entry, and every entry is the size of a free block |
| `Fragmentation.FreeAndUsedPartition` | app.py:83-86 | the total free memory plus the sizes of the used blocks is the size of the whole list, so every free block is counted once in the total |
| `Fragmentation.FreeOnTiling` | app.py:83-86 | on a tiling of `[0, total)`, the total free memory is the capacity minus the used memory |
| `Fragmentation.Max` | app.py:87 | the result bounds every element and is an element when the sequence is non-empty |
| `Fragmentation.ExternalFragmentation` | app.py:82-88 | the metric is 0 with at most one free block and never exceeds the total free memory |
| `Fragmentation.FragmentationIsFreeOutsideLargest` | app.py:82-88 | the metric plus the largest free block is the total free memory, including in the early-exit cases |
| `Fragmentation.FragmentationZeroIff` | app.py:84-88 | in a valid list, fragmentation is 0 if and only if at most one block is free |
| `Fragmentation.AllocateSucceedsIff` | app.py:39-71 | for every strategy, allocating `n > 0` units succeeds if and only if the largest free block holds `n` units |
| `Scenarios.StrategiesDisagree` | app.py:39-71 | with free holes of 100, 50 and 200 units, a request of 40 goes to the 100 hole under first-fit, the 50 hole under best-fit and the 200 hole under worst-fit |
| `Scenarios.FragmentationOfThreeHoles` | app.py:82-88 | free blocks of 10, 30 and 5 units give a fragmentation of 15 |
| `Scenarios.Session` | app.py:7-80 | on 1024 units, first-fit gives P1 300 units and P2 the next 200; releasing P1 leaves its hole apart from the tail, and releasing P2 merges everything back into one free block |
| `Scenarios.DuplicateId` | app.py:73-80 | a second allocation under a used id succeeds, and deallocating that id frees only its first block |

## Left out

- The Streamlit interface, the matplotlib chart and the pandas table are presentation and are not modelled.
- The text of the returned messages is not modelled; `Outcome` is the class's own success or failure. The interface decides success by whether "SUCCESS" appears in the message (app.py:156, 166). Every message contains the process id, so an id containing "SUCCESS" makes a failure display as a success. That is an interface quirk and is not modelled.
- Best-fit's `float('inf')` initial minimum becomes "no choice yet" (`None`). It is only ever compared with non-negative integers, so nothing else changes.
- The merge pass sorts the list by start before sweeping. The model asks for a list sorted by start (`SortedByStart`) and treats the sort as the identity. Every contiguous list is sorted, and the operations produce only contiguous lists. A general sort is not modelled.
- The class does not reject a request of size 0 or less; only the interface does. `Allocate` therefore requires `n > 0`.
- `Allocation.Init` claims validity only for a positive capacity. A capacity of 0 gives a single block of size 0, which the positive-size part of `Valid` excludes.
- Deallocation frees only the first used block with the id, and a later block under the same id stays used (app.py:74-79). `DeallocateLeavesLaterDuplicate` and `DuplicateId` show this, and `DeallocateClearsSoleOwner` shows that no block keeps the id when it owned at most one.
- Deallocation.AllocateDeallocateRoundTrip: it requires that the process owned no block before the allocation. An owner whose blocks all lie after the chosen block also round-trips when the allocation succeeds; `SplitThenRelease` proves that case. It is left out of the round-trip lemma for simplicity, because on a failed allocation such an owner would lose its block. With a block of the owner before the chosen one, deallocation frees that earlier block instead of the new one.
- Python's in-place mutation of block dictionaries becomes building a new list. Callers cannot observe the difference, because the manager is the list's only holder.
