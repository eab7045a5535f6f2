# nfb-allocator in Dafny

A model of the "no fragmentation buffered" allocator `nfb_allocator<T>` and of
the fixed-capacity container it is built on, with proofs about both.

- `buffer_vector.dfy` (module `Container`): `buffer_vector<T>` as the class
  `BufferVector<T>` over a caller-owned `array<T>` with a live-element count.
  `push_back`, `pop_back`, the shifting `insert` and `remove` and the forward
  walk from `begin()` to `end()` are methods; the getters are functions. The
  ghost view `Elements()` is the live prefix `data[..count]`, and every method
  states its new contents in terms of it (`InsertAt`, `RemoveAt`).
- `entity_buffer.dfy` (module `Entities`): `difference`, the region descriptor
  `entity` (start offset and byte count, `End()` for `end_ptr`), the registry
  invariant `WellFormed` (non-empty regions, inside the block, ascending and
  non-overlapping), and `entity_buffer::insert_ordering` / `remove_item` as
  methods on a `BufferVector<Entity>`, proved against the functions
  `InsertOrdered` and `Deallocation`.
- `gap_search.dfy` (module `GapSearch`): the candidate gaps `allocate_c`
  derives from the registry (the switch on its size, then the loop over
  neighbouring regions), the selection rule as a fold `Select`, and the
  function `Allocation` that specifies `allocate_c`'s result. The lemmas prove
  the selection properties, that every candidate is free space, that no free
  byte is missed, that freed space merges with its neighbours, and that a
  successful allocation keeps the registry well formed.
- `nfb_allocator.dfy` (module `Allocator`): the class `NfbAllocator` with
  `allocate_c`, `allocate` and `deallocate` as methods that update the
  registry in place, the literal `deallocate` over the raw slot array, and
  concrete scenarios on a 100-byte block, proved by the verifier.

Addresses are offsets from the start of the managed block: the block is
`memorySize` bytes, a null `T*` is `Ptr.Null`, and a non-null one is
`Ptr.Addr(offset)`. `sizeof(T)` is the constant `elemSize > 0`.

Behaviour kept as the code has it, where the design description says otherwise:

- Selection. The design calls the policy best fit. The code starts from the
  first candidate and lets a later one replace it only if that one fits and is
  strictly smaller. A first candidate that is too small is never replaced, so
  the call returns null even when a later gap would fit
  (`GapSearch.FirstCandidateTooSmallBlocksLaterFit`). Success holds exactly
  when the first candidate fits; when it succeeds, the result is the smallest
  fitting candidate, and among equal sizes the earliest.
- Full registry. The result of `insert_ordering` is ignored
  (source/nfb_allocator.h:186). With a full registry the pointer is returned
  but the region is not recorded, so the next call can hand out the same bytes
  (`Allocator.FullRegistryScenario`). `AllocateC` states this case in its
  postcondition.

## Model

| member | source | states |
|---|---|---|
| Container.InsertAt | source/container/buffer_vector.h:106-121 | one element longer; `x` at `i`, the elements before `i` in place, the rest shifted one slot right |
| Container.RemoveAt | source/container/buffer_vector.h:122-133 | one element shorter; the elements before `i` in place, the rest shifted one slot left |
| Container.InsertAtAddsElement | source/container/buffer_vector.h:106-121 | insertion adds exactly one occurrence of the item and loses nothing (multiset) |
| Container.RemoveAtDropsElement | source/container/buffer_vector.h:122-133 | removal drops exactly one occurrence of the removed element and nothing else (multiset) |
| Container.RemoveThenInsertRestores | source/container/buffer_vector.h:106-133 | removing element `i` and inserting it again at `i` restores the contents |
| Container.InsertThenRemoveRestores | source/container/buffer_vector.h:106-133 | inserting at `i` and removing position `i` restores the contents |
| Container.BufferVector.constructor | source/container/buffer_vector.h:46-50 | a new vector is empty, uses the given buffer, and its capacity is the buffer's length |
| Container.BufferVector.Size | source/container/buffer_vector.h:64-67 | the number of live elements, never above the capacity |
| Container.BufferVector.IsFull | source/container/buffer_vector.h:74-77 | true exactly when size equals capacity |
| Container.BufferVector.IsEmpty | source/container/buffer_vector.h:78-81 | true exactly when there are no live elements |
| Container.BufferVector.At | source/container/buffer_vector.h:56-62 | out_of_range exactly when index >= size; otherwise element `index` |
| Container.BufferVector.Get | source/container/buffer_vector.h:52-55 | element `index` of the live contents |
| Container.BufferVector.Front | source/container/buffer_vector.h:83-86 | the first live element |
| Container.BufferVector.Back | source/container/buffer_vector.h:87-90 | the last live element |
| Container.BufferVector.PushBack | source/container/buffer_vector.h:92-99 | false and no change when full; otherwise the item is appended and nothing else changes |
| Container.BufferVector.PopBack | source/container/buffer_vector.h:100-104 | no change when empty; otherwise only the last element is dropped |
| Container.BufferVector.Insert | source/container/buffer_vector.h:106-121 | false and no change when full; otherwise the contents become `InsertAt(old, index, item)` |
| Container.BufferVector.Remove | source/container/buffer_vector.h:122-133 | false and no change when index >= size; otherwise `RemoveAt(old, index)`, and the slot past the new end still holds the old last element |
| Container.BufferVector.End | source/container/buffer_vector.h:148-151 | `end()` lies `size` slots after `begin()` |
| Container.BufferVector.Traverse | source/container/buffer_vector.h:144-151 | walking from `begin()` to `end()` visits exactly the live elements, in order |
| Entities.Entity.End | source/nfb_allocator.h:23-26 | no contract; it is `end_ptr`, start plus count, and its properties are stated through Disjoint, GapAfter and the freeness lemmas |
| Entities.Difference | source/nfb_allocator.h:6-13 | the absolute distance: adding it to the smaller address gives the larger |
| Entities.IndexOfStart | source/nfb_allocator.h:216-220 | the first index whose region starts at `p`; equals the size exactly when no region starts at `p` |
| Entities.InsertionPoint | source/nfb_allocator.h:34-43 | corrected rule: every region before the point starts at or below the item, the one at the point starts above it |
| Entities.InsertionPointAsWritten | source/nfb_allocator.h:34-43 | literal rule: every region before the point starts at or above the item, the one at the point starts below it |
| Entities.InsertOrderedKeepsWellFormed | source/nfb_allocator.h:34-43 | inserting a non-empty free region at the corrected point keeps the registry non-empty-regioned, in the block and ascending |
| Entities.InsertOrderedAddsExactlyItem | source/nfb_allocator.h:34-43 | the ordered insertion adds exactly the new region and keeps every other one |
| Entities.InsertOrderedAsWrittenKeepsDescending | source/nfb_allocator.h:34-43 | the literal rule keeps a descending registry descending |
| Entities.RemoveKeepsWellFormed | source/nfb_allocator.h:44-53 | removing any region keeps the registry well formed |
| Entities.RemovedStartIsGone | source/nfb_allocator.h:44-53 | in a well-formed registry no other region shares the removed region's start |
| Entities.RemoveKeepsOthers | source/nfb_allocator.h:44-53 | every region that starts elsewhere survives the removal |
| Entities.Deallocation | source/nfb_allocator.h:214-229 | succeeds exactly when some region starts at `p`; on failure the registry is unchanged |
| Entities.DeallocationRemovesOnlyThatRegion | source/nfb_allocator.h:214-229 | a registered `p` is released: it is no longer registered, the registry stays well formed, one region shorter, and every other region is kept |
| Entities.DeallocateTwiceFails | source/nfb_allocator.h:214-229 | freeing the same pointer a second time fails |
| Entities.Find | source/nfb_allocator.h:216-220 | the linear search returns the first index whose region starts at `p`, or the size |
| Entities.InsertOrdering | source/nfb_allocator.h:34-43 | false and no change when full; otherwise the registry becomes `InsertOrdered(old, item)` |
| Entities.RemoveItem | source/nfb_allocator.h:44-53 | result and new registry are `Deallocation(old, item.start)`; the stale slot past the end holds the old last region |
| GapSearch.GapAfter | source/nfb_allocator.h:159-163 | the gap starts at the left region's end and, for ordered neighbours, ends at the right region's start |
| GapSearch.EdgeCandidates | source/nfb_allocator.h:76-151 | the switch yields one or two candidates; which ones is stated by OneRegionCandidates and EdgeCandidatesAreFree |
| GapSearch.InteriorGaps | source/nfb_allocator.h:157-163 | one gap per neighbouring pair, gap `i` running from region `i`'s end to region `i + 1`'s start |
| GapSearch.Candidates | source/nfb_allocator.h:76-176 | no contract; the switch's candidates followed by the loop's gaps, in scan order; its properties are CandidatesAreFree, FreeGapsAreCandidates and FreeByteLiesInCandidate |
| GapSearch.Better | source/nfb_allocator.h:166-175 | the result is the current best or the candidate; the candidate wins exactly when it fits and is strictly smaller (the same test as lines 103 and 145) |
| GapSearch.Select | source/nfb_allocator.h:142-176 | the selected candidate is one of the candidates, and stays the first one when that one is too small |
| GapSearch.Allocation | source/nfb_allocator.h:64-189 | what allocate_c returns: null for a zero count; a returned offset starts a candidate that holds the request. Its full characterisation is AllocationSucceedsIffFirstCandidateFits and AllocationIsEarliestSmallestFit |
| GapSearch.SelectStep | source/nfb_allocator.h:165-176 | each loop iteration is one more step of the fold |
| GapSearch.SelectIsSmallestFit | source/nfb_allocator.h:142-176 | when the first candidate fits, the selection fits and is no larger than any fitting candidate |
| GapSearch.SelectIsEarliestSmallestFit | source/nfb_allocator.h:142-176 | also: every fitting candidate scanned before the selected one is strictly larger (ties keep the earlier one) |
| GapSearch.AllocationSucceedsIffFirstCandidateFits | source/nfb_allocator.h:142-182 | a non-zero request succeeds exactly when the first candidate fits |
| GapSearch.AllocationIsEarliestSmallestFit | source/nfb_allocator.h:142-182 | a returned address starts the earliest smallest fitting candidate |
| GapSearch.AllocationOnEmptyRegistry | source/nfb_allocator.h:64-79 | with no live region the result is offset 0 exactly when count > 0 and count * elemSize <= block size, else null |
| GapSearch.OneRegionCandidates | source/nfb_allocator.h:81-107 | with one region the candidates are exactly its free prefix and suffix, each present when non-empty |
| GapSearch.PrefixIsFree | source/nfb_allocator.h:124-128 | the span before the first region is free |
| GapSearch.SuffixIsFree | source/nfb_allocator.h:136-140 | the span after the last region is free |
| GapSearch.GapAfterIsFree | source/nfb_allocator.h:159-163 | the gap between neighbours is free |
| GapSearch.OneRegionEdgeCandidatesAreFree | source/nfb_allocator.h:81-107 | with one region, the switch's candidates are free |
| GapSearch.FirstEdgeCandidateIsFree | source/nfb_allocator.h:118-128 | with two or more regions, the first gap of the switch is free |
| GapSearch.LastEdgeCandidateIsFree | source/nfb_allocator.h:130-140 | with two or more regions, the last gap of the switch is free |
| GapSearch.EdgeCandidatesAreFree | source/nfb_allocator.h:76-151 | every candidate of the switch lies in the block and overlaps no live region |
| GapSearch.CandidatesAreFree | source/nfb_allocator.h:76-176 | every candidate allocate_c considers lies in the block and overlaps no live region |
| GapSearch.FreeGapsAreCandidates | source/nfb_allocator.h:76-176 | every non-empty maximal free span is a candidate |
| GapSearch.FreeByteLiesInCandidate | source/nfb_allocator.h:76-176 | every byte of the block that no region covers lies in some candidate |
| GapSearch.MergedSpanIsFreeGap | source/nfb_allocator.h:153-176 | after removing region `i`, the span from its left neighbour's end to its right neighbour's start is a maximal free span |
| GapSearch.FreedRegionJoinsNeighbouringGaps | source/nfb_allocator.h:214-229 | after a region is freed, the whole span between its neighbours is one non-empty candidate |
| GapSearch.AllocationKeepsRegistryWellFormed | source/nfb_allocator.h:109-188 | a returned region is non-empty, in the block and disjoint from every live region, and recording it keeps the registry well formed |
| GapSearch.FirstCandidateTooSmallBlocksLaterFit | source/nfb_allocator.h:93-106 | with region [5, 10) in 100 bytes, a 20-byte request is null although the 90-byte suffix is a candidate |
| GapSearch.ScenarioFirstAllocation | source/nfb_allocator.h:78-79 | 10 bytes in an empty 100-byte block go to 0 |
| GapSearch.ScenarioSecondAllocation | source/nfb_allocator.h:81-92 | next, 20 bytes go to 10, recorded after [0, 10) |
| GapSearch.ScenarioFree | source/nfb_allocator.h:214-229 | freeing 0 leaves only [10, 30) |
| GapSearch.ScenarioReuse | source/nfb_allocator.h:93-107 | a 10-byte request then gets 0, the exact-size prefix preferred to the 70-byte suffix |
| GapSearch.FreedPrefixIsReused | source/nfb_allocator.h:64-229 | the four steps above together |
| GapSearch.AsWrittenInsertReverses | source/nfb_allocator.h:34-43 | the literal rule puts [10, 30) in front of [0, 10) |
| GapSearch.AsWrittenOrderingHandsOutLiveRegion | source/nfb_allocator.h:109-163 | on that descending registry a 10-byte request gets 0, the start of a live region |
| Allocator.NfbAllocator.constructor | source/nfb_allocator.h:60-62 | a new allocator has an empty registry over the given slot array and satisfies the invariant |
| Allocator.NfbAllocator.SwitchCandidate | source/nfb_allocator.h:76-151 | the switch picks the fold of `EdgeCandidates` |
| Allocator.NfbAllocator.BestCandidate | source/nfb_allocator.h:153-176 | the loop ends on the fold of all candidates |
| Allocator.NfbAllocator.AllocateC | source/nfb_allocator.h:64-189 | result is `Allocation(old registry)`; null leaves the registry unchanged; a pointer is recorded when there is room; the invariant is kept |
| Allocator.NfbAllocator.Allocate | source/nfb_allocator.h:196-207 | the same result and registry as AllocateC; the value-initialisation that follows a non-null result is not modelled |
| Allocator.NfbAllocator.Deallocate | source/nfb_allocator.h:214-229 | result and new registry are `Deallocation(old registry, p)`; the invariant is kept |
| Allocator.DeallocateAsWritten | source/nfb_allocator.h:214-229 | the literal deallocate always reports success, and agrees with the intended one on registered pointers |
| Allocator.AsWrittenDeallocateFreesLiveRegion | source/nfb_allocator.h:222-227 | on slots [[10, 30), [10, 30)] with one live entry, freeing the unknown 50 removes the live region and succeeds |
| Allocator.AllocateTwice | source/nfb_allocator.h:64-189 | on the object: 10 bytes go to 0, then 20 bytes to 10 |
| Allocator.AllocateTwiceFreeFirst | source/container/buffer_vector.h:122-133 | freeing 0 next leaves [10, 30) live and a stale copy of it in the following slot |
| Allocator.FreedPrefixScenario | source/nfb_allocator.h:214-229 | a 10-byte request then gets 0 again; the literal deallocate of 50 on those slots would have freed the live region |
| Allocator.FullRegistryScenario | source/nfb_allocator.h:184-188 | with one registry slot the second pointer is not recorded and the third call returns the same bytes |

## Left out

- Value-initialisation in `allocate`, which writes `T{}` through the raw bytes: object lifetime over reinterpreted storage is not modelled. Only the null path, where nothing is written, is.
- Real pointers, `reinterpret_cast` and pointer comparison: addresses are offsets from the block start, so the block itself begins at 0.
- `deallocate` takes the offset as a `nat`, and no value of it stands for a null `T*`. In the source every registered start lies inside the non-null block, so `deallocate(nullptr)` matches no region; as written it then passes the stale slot to `remove_item` and returns true, while the intended behaviour returns false. That call is not modelled.
- DeallocateAsWritten: requires that the search result index lies inside the slot array. It therefore excludes an unknown pointer on a full registry, where the source reads one slot past the array (undefined behaviour).
- `size_t` wrap-around in `count * sizeof(T)` and in `size() - 1` on an empty registry: integers are unbounded. The loop guard is written `i + 1 < size`, which is what the guard means whenever `need_to_foreach` holds.
- `pointer_forward_iterator` (its `std::iterator` base, copy constructor and `operator+`) and `std::find_if`: they are replaced by `BufferVector.Traverse`, `Begin`/`End` positions and the linear search `Entities.Find`.
- The move assignment of `buffer_vector`: it only copies a pointer and two counters.
- Undefined behaviour (unchecked `operator[]`, `front`/`back` on an empty vector, `insert` with an index above the size) is excluded by preconditions.
- `Capacity` and `Begin` have no contract: they return a field and the constant 0.
- `InsertOrdered` and `InsertOrderedAsWritten` are plain definitions. Their properties are the lemmas in the table.
- A default-constructed `entity`, which is `{nullptr, 0}`, has no counterpart: every `Entity` is a region at some offset, and `Entity(0, 0)` means an empty region at the block start. DeallocateAsWritten therefore matches the source only when the stale slot holds a region written earlier. On a slot that was never written, the source passes `{nullptr, 0}` to `remove_item`, which matches nothing, while the model would match a region at offset 0. The `Entity(0, 0)` fill of the slot arrays in `AllocateTwice` and `FullRegistryScenario` is an arbitrary initial value, not the source's default entity; no scenario reads an unwritten slot.
- Concurrency: the source has none.

## Findings

| source | as written | input that shows it | evidently intended | confidence | as-written member | corrected member |
|---|---|---|---|---|---|---|
| source/nfb_allocator.h:39 | `insert_ordering` inserts before the first region with a smaller start, which keeps the registry descending, while `allocate_c` reads it as ascending | 100-byte block, 1-byte elements: allocate 10 (gets 0), allocate 20 (gets 10); the registry is [[10, 30), [0, 10)] and allocate 10 gets 0 again while [0, 10) is live | insert before the first region with a larger start, so that the registry stays ascending | high; not executed | Entities.InsertionPointAsWritten, GapSearch.AsWrittenOrderingHandsOutLiveRegion | Entities.InsertOrdering, Entities.InsertOrderedKeepsWellFormed |
| source/nfb_allocator.h:222 | the `find_if` result is compared with `nullptr`, which it never equals; for an unknown pointer the stale slot past the end is passed to `remove_item` and true is returned | allocate 10 and 20, free 0; the slots hold [[10, 30), [10, 30)] with one live; deallocate 50 removes [10, 30) and returns true | compare with `end()`: an unknown pointer returns false and leaves the registry unchanged | high; not executed | Allocator.DeallocateAsWritten, Allocator.AsWrittenDeallocateFreesLiveRegion | Allocator.NfbAllocator.Deallocate, Entities.DeallocationRemovesOnlyThatRegion |
