# Sparse set with component storage (sps)

A Dafny model of `sps`, a fixed-capacity sparse set for entity-component
systems. Keys are 16-bit entity indices below `SPARSE_SET_MAX` (65535). Each
key in the set owns one component slot. The set has four parts:

- `sparse` maps a key to its dense slot, or to the sentinel `MAX` when the key is absent.
- `dense` maps a live slot back to its key.
- `components` holds the component of each slot.
- `count` is the number of live slots. The live slots are always `0 .. count-1`.

The model follows the C code's form:

- `SparseSet` is a class whose `count` field and `sparse`, `dense` and `components` arrays are updated in place.
- `SparseSetIter` is a class whose cursor `index` is advanced by `Next`.
- Add, remove and sort are methods that state the new state of every array.
- The sort's temporary `order` buffer is built by the same three loops as in the C code. They are proved against a pure insertion-sort specification (`InsertionSort.InsertionOrder`). That specification is proved to be a permutation for any comparator, and to be sorted and stable when the comparator is a total preorder on the components being sorted.

The representation invariant `SparseSet.Valid` is the bijection between the
keys present and `dense[0 .. count)`, with sentinels everywhere else. Every
set operation on a valid set, except `AddOrReplace` of a key already present,
is also stated against the abstract value `Contents()`, the map from each key
to its component. `AddOrReplace` of a present key is stated to break the
invariant. The iterator is stated over the dense slots. A returned component
pointer is modelled as the dense slot it points at. Release-build behaviour
is modelled: a refused call returns its failure value and changes nothing.

Files:

- `sps_types.dfy`: `MAX`, `u16` and the result types.
- `permutations.dfy`: distinctness and permutations of slot lists.
- `insertion_sort.dfy`: the specification of the `order` buffer and its lemmas.
- `sort_buffer.dfy`: the loops that fill the `order` buffer.
- `sparse_set.dfy`: the set.
- `iterator.dfy`: the cursor.
- `scenarios.dfy`: the repository's unit tests, written as client methods whose postconditions are what each test asserts.

## Model

| member | source | states |
|---|---|---|
| SparseSets.SparseSet.constructor | src/sps.c:232-242 | a new set is valid and empty, with every `sparse` and `dense` entry equal to the sentinel and fresh arrays |
| SparseSets.New | src/sps.c:227-243 | a component size of 0 gives no set; any other size gives a fresh, valid, empty set whose index tables hold only the sentinel |
| SparseSets.SparseSet.DenseListsEachKeyOnce | include/sps/sps.h:27-33 | under the invariant, `dense[0 .. count)` lists every key of the set exactly once and nothing else, so `count` is the number of keys |
| SparseSets.SparseSet.Count | src/sps.c:51-58 | the count is the number of keys in the set |
| SparseSets.SparseSet.Has | src/sps.c:138-145 | on any set, never true for the sentinel; on a valid set, true exactly when the key is in the set |
| SparseSets.SparseSet.Get | src/sps.c:214-225 | on any set, the sentinel is an argument error and a slot is found exactly when the key's sparse entry is not the sentinel; on a valid set, an absent key is "not found" and a present key gives the live slot that holds its key and its component |
| SparseSets.SparseSet.Add | src/sps.c:161-183 | the sentinel, a full set and a present key are refused, in that order and with that reason, leaving the set unchanged; otherwise the key and component are appended at slot `count`, the slot is returned, the invariant is kept and the contents gain exactly `k := v` |
| SparseSets.SparseSet.AddOrReplace | src/sps.c:147-159 | as written: the sentinel is refused with nothing changed; any other key is appended at slot `count`. For a new key that is `sps_add`'s insertion and keeps the invariant; for a key already present it breaks the invariant |
| SparseSets.SparseSet.Upsert | include/sps/sps.h:102-114 | the documented add-or-replace: the returned slot is live and holds the key and the new component; a present key gets its component replaced in its own slot with the tables unchanged; a new key is appended at slot `count` as by `Add`, or refused when the set is full; the contents become `old[k := v]` |
| SparseSets.SparseSet.Remove | src/sps.c:185-212 | the sentinel and an absent key are refused with that reason and change nothing; otherwise the last slot's key and component move into the removed key's slot, the last slot and the removed key become the sentinel, the invariant is kept and the contents lose exactly `k` |
| SparseSets.SparseSet.SwapRemove | src/sps.c:196-211 | the swap-with-last and pop: the exact new `sparse`, `dense`, `components` and `count`, the live prefix, the invariant, and contents minus the key |
| SparseSets.SparseSet.RemovedContents | src/sps.c:196-211 | the tables left by the swap describe the old contents without the removed key, including when the removed key sits in the last slot |
| SparseSets.SparseSet.Sort | src/sps.c:60-136 | nothing changes with fewer than two entries; otherwise slot `p` receives the key and component of slot `order[p]` of the insertion order, every key keeps its component, and the invariant holds. Under a total-preorder comparator the components are non-decreasing, and entries that compare equal keep their original relative order |
| SparseSets.SparseSet.ApplyOrder | src/sps.c:112-130 | rearranging by the insertion order gives the sort's layout, and the sorted and stable outcomes under a total preorder |
| SparseSets.SparseSet.Rearrange | src/sps.c:112-130 | for any permutation `order` of the live slots: slot `p` takes the key and component of slot `order[p]`, `sparse` points every key at its new slot, the slots past `count` are untouched, and the contents and the invariant are preserved |
| SparseSets.SparseSet.Gather | src/sps.c:113-126 | the temporary buffers hold the component and key of slot `order[i]` at `i`; each present key's sparse entry is the new slot that `order` sends its old slot to; absent keys keep the sentinel |
| SparseSets.SparseSet.CopyBack | src/sps.c:128-130 | the live slots of `components` and `dense` become the temporary buffers, and the slots past `count` are untouched |
| SparseSets.SparseSet.RearrangedTables | src/sps.c:112-130 | tables rebuilt from a permutation, with `sparse` pointing each key at its new slot, satisfy the invariant and hold the same contents |
| SortBuffer.SortOrder | src/sps.c:70-98 | the `order` buffer equals the insertion order of the live components |
| SortBuffer.Identity | src/sps.c:77-80 | the initial buffer holds `i` at position `i` |
| SortBuffer.InsertionPasses | src/sps.c:82-98 | after the outer loop, the buffer is the insertion order of all slots |
| SortBuffer.InsertSlot | src/sps.c:84-97 | one pass inserts `order[i]` into the already-ordered prefix exactly as `Insert` specifies, and leaves later entries untouched |
| SortBuffer.ShiftGreater | src/sps.c:89-96 | the scan stops at the last entry that does not compare greater than the key, or at the front; every entry scanned past compares greater and has moved one place back |
| SortBuffer.Spliced | src/sps.c:97 | writing the key just after where the scan stopped yields `Insert` of the key into the prefix |
| InsertionSort.Insert | src/sps.c:84-97 | one insertion adds exactly one entry |
| InsertionSort.InsertAt | src/sps.c:89-97 | when entry `j` does not compare greater than `x` and every later entry does, inserting `x` puts it right after `j` |
| InsertionSort.InsertMembers | src/sps.c:84-97 | insertion keeps every listed slot and adds the new one, and nothing else |
| InsertionSort.InsertionOrder | src/sps.c:77-98 | the order for `n` slots has `n` entries |
| InsertionSort.InsertKeepsDistinct | src/sps.c:84-97 | inserting a new slot into a list without repetitions gives one |
| InsertionSort.InsertKeepsSorted | src/sps.c:89-97 | under a total preorder, inserting into a sorted slot list keeps it sorted |
| InsertionSort.InsertKeepsStable | src/sps.c:91-93 | because the scan stops on `compare <= 0`, a slot numbered above all listed ones never passes one that compares equal |
| InsertionSort.InsertionOrderIsPermutation | src/sps.c:77-98 | the order buffer lists every slot `0 .. n-1` exactly once |
| InsertionSort.InsertKeepsPermutation | src/sps.c:83-98 | one pass of the outer loop turns a list of the slots 0 .. m-1 into a list of the slots 0 .. m, each once |
| InsertionSort.InsertionOrderIsSorted | src/sps.c:82-98 | under a total preorder, the order buffer lists slots by non-decreasing component |
| InsertionSort.InsertionOrderIsStable | src/sps.c:82-98 | under a total preorder, slots whose components compare equal stay in their original relative order |
| InsertionSort.SortedPermuted | src/sps.c:112-130 | laying out components in a sorted slot order gives non-decreasing components |
| InsertionSort.StablePermuted | src/sps.c:112-130 | laying out components in a stable slot order keeps equal components in their original slot order |
| InsertionSort.InsertionSortOutcome | include/sps/sps.h:82-91 | components laid out in insertion order are non-decreasing under a total preorder, and equal ones keep their original order |
| Permutations.DistinctCardinality | include/sps/sps.h:28 | a list without repetitions has as many distinct elements as entries; it links `count` to the number of keys |
| SparseSetIterators.SparseSetIter.constructor | src/sps.c:40-49 | the cursor starts at slot 0 of the given set |
| SparseSetIterators.SparseSetIter.Next | src/sps.c:24-38 | with no index out-parameter, or once the cursor reaches the set's current count, the end with no move; otherwise the key and slot under the cursor, and the cursor advances by one |
| SparseSetIterators.SparseSetIter.FreshPassVisitsEachKeyOnce | include/sps/sps.h:55-70 | from slot 0 of a valid set, the keys still to visit are exactly the keys of the set, each once |
| SpsScenarios.CompareInts | tests/test_sps.c:118-122 | the tests' comparator meets the contract of include/sps/sps.h:45-53: negative, zero or positive exactly as the first integer is below, equal to or above the second |
| SpsScenarios.CompareIntsIsTotalPreorder | tests/test_sps.c:118-122 | the tests' comparator is a total preorder on any integers |
| SpsScenarios.Drain | tests/test_sps.c:79-89 | stepping until the end collects exactly the keys and components the cursor had still to visit, in slot order |
| SpsScenarios.AddAll | tests/test_sps.c:67-70 | adding distinct new keys one after another appends them and their components to the live slots in order, and maps each key to its component |
| SpsScenarios.NewIntSet | tests/test_sps.c:10 | `sps_new(sizeof(int))` gives a fresh, valid, empty set |
| SpsScenarios.AddScenario | tests/test_sps.c:17-22 | the first add succeeds in slot 0 and that slot holds the component given |
| SpsScenarios.GetScenario | tests/test_sps.c:24-35 | an added key is found with its component; a key never added is not found |
| SpsScenarios.RemoveScenario | tests/test_sps.c:37-53 | after removing one of two keys it is not found, and the other keeps its component |
| SpsScenarios.HasScenario | tests/test_sps.c:55-61 | an added key is present and another key is not |
| SpsScenarios.IterScenario | tests/test_sps.c:63-95 | a pass over three added keys visits each once with its component, in order of addition |
| SpsScenarios.FullScenario | tests/test_sps.c:97-115 | keys 0 .. 99 added with their own number are all found with it |
| SpsScenarios.SortSet | tests/test_sps.c:125-131 | the five adds give a valid set of five keys with the listed components |
| SpsScenarios.SortedSet | tests/test_sps.c:125-134 | after `sps_sort` with `compare_ints`, the same contents with non-decreasing components |
| SpsScenarios.SortScenario | tests/test_sps.c:124-160 | a pass after sorting sees five keys with non-decreasing components, each key still holding the component it was added with |
| SpsScenarios.FourKeySet | tests/test_sps.c:164-169 | keys 1 .. 4 added in order occupy slots 0 .. 3 |
| SpsScenarios.IterWithModificationsScenario | tests/test_sps.c:163-186 | removing key 2 after creating the iterator and before stepping it gives a pass over keys 1, 4, 3: three items |
| SpsScenarios.EdgeCasesScenario | tests/test_sps.c:196-208 | the sentinel key and a second add of the same key are refused; removing an absent key reports it; the absent key is not found |
| SpsScenarios.DuplicateSet | src/sps.c:147-159 | add then add-or-replace of the same key leaves two live slots for that key |
| SpsScenarios.AddOrReplaceDuplicateScenario | src/sps.c:147-159 | a pass after add and add-or-replace of the same key visits that key twice, with the old and the new component, and the count is 2 |
| SpsScenarios.UpsertScenario | include/sps/sps.h:111-112 | with replace-in-place, the same calls leave one entry holding the new component |

## Left out

- Memory allocation: `malloc` failure in `sps_new` and in `sps_sort` (src/sps.c:71-75, 101-110, 232-236), and `sps_free`. The model always allocates. Sort is therefore modelled as always completing, and its behaviour when a temporary buffer cannot be obtained is not modelled.
- The `sps_error` diagnostics (`fprintf` and, in debug builds, `abort`). Release builds are modelled, where a refused call returns its failure value.
- Bytes and pointers: components are values of a type `T`, copied whole instead of by `memcpy`; a returned pointer is the slot index. `componentSize` only matters as being positive.
- NULL arguments (`set`, `component`, `compare`, `iter`) are not representable: references are non-null.
- SparseSets.SparseSet.Sort: the `void *context` argument is dropped and the comparator is a pure function of two components.
- SparseSets.SparseSet.Sort: the `order` buffer is computed from a sequence snapshot of the live components, not by reading the component array in place. The components are not written while the buffer is built.
- SparseSets.SparseSet.AddOrReplace: requires `count < MAX` for any key other than the sentinel. For such a key on a full set the C code writes `dense[MAX]` out of bounds and wraps `count` to 0, which is undefined behaviour. The sentinel key is accepted at any count and refused before any write.
- SparseSetIterators.SparseSetIter.Next: the `index` out-parameter is modelled by a flag saying whether it was supplied. A missing one gives the end, as the C code does; the header's "can be NULL" is not followed.
- SparseSets.SparseSet.Get: reports the sentinel key as an argument error, distinct from "not found". The release build returns NULL for both.
- SpsScenarios.CompareInts: subtraction on unbounded integers. The C `int` subtraction can overflow for extreme values, which the tests never reach.
- The tests' NULL-argument calls (tests/test_sps.c:190-194) and the Unity harness.

## Findings

| source | as written | input that shows it | evidently intended | confidence | as-written member | corrected member |
|---|---|---|---|---|---|---|
| src/sps.c:147-159 | `sps_add_or_replace` always appends at slot `count` and never checks whether the key is already present | add key 1 with 10, then add_or_replace key 1 with 20: the dense slots hold key 1 twice, a pass visits it twice, the count is 2, and slot 0 is orphaned | replace the component in the key's own slot, as include/sps/sps.h:111-112 documents | high, not executed | SpsScenarios.AddOrReplaceDuplicateScenario | SparseSets.SparseSet.Upsert |
