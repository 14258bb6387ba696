# Winteradio Container, modelled in Dafny

A Dafny model of the header-only C++ container library `wtr`. It covers:

- `DynamicArray`: a growable array.
- `StaticArray`: a fixed-length array.
- `List`: a doubly linked ring with a sentinel node.
- `HashTable`: open addressing with Robin Hood probing and backward-shift erase.
- `HashMap` and `HashSet`: the two instantiations of `HashTable`.
- `Arena`: the page-per-allocation allocator.
- `LinearArena`: the bump allocator.

Each container is a Dafny `class` whose fields the methods update in place:

- **DynamicArray** keeps an `array` buffer with a size and a recorded capacity.
- **StaticArray** keeps an `array` of `Count` elements.
- **List** keeps the ring's items as a `seq`, with an iterator written as a node position and the sentinel one past the last item.
- **HashTable** keeps a `DynamicArray` of slots. Each slot holds an element and a probe sequence length (psl), and -1 marks an empty slot.
- **The allocators** keep their page rings as sequences of pages.

Each method's contract ties its result and new state to a specification function, or states outright what the C++ code promises. Lemmas prove the properties of those functions.

The Robin Hood invariant of a table is the predicate `RobinHood.Table`. It combines:

- every psl is its slot's distance from the element's home;
- every displaced element's predecessor slot is occupied and not less displaced;
- keys are distinct;
- some slot has psl ≤ 0.

Each table operation is proved to keep this invariant and to change the table's elements (a multiset) exactly as stated. The probe, rehash, erase and shift loops are proved to terminate.

The hash function, key selector and comparer are parameters of a table. A table's key selector is the function-typed constant `key`, and its comparer is `cmp`. Where the comparer must be key equality for a property to hold, the contract says so with `IsEquality(cmp)`.

Module layout:

- `ring.dfy`: index arithmetic on a ring of slots.
- `robin_hood.dfy`: the slot-list invariant and its lemmas.
- `table_walk.dfy`: iteration over slots.
- `hash_table.dfy`, `hash_map.dfy`, `hash_set.dfy`.
- `dynamic_array.dfy`, `static_array.dfy`.
- `list.dfy`, plus `list_links.dfy`: the node links of the whole-list splice.
- `memory.dfy`: pointers and padding.
- `arena.dfy`, `linear_arena.dfy`.

## Model

| member | source | states |
|---|---|---|
| Ring.ModuloAgrees | include/HashTable.h:454-463 | the ring steps used by the probe and shift loops equal the source's `(i + 1) % n`, `(n + i - d) % n` and `(offset + first) % n` expressions |
| Ring.Dist | include/HashTable.h:502-537 | the forward distance between two slots is below `n`, leads from the first to the second, and is 0 exactly when they coincide |
| Memory.Padding | include/LinearArena.h:111 | `(align - x % align) % align` is less than `align`, takes `x` to a multiple of `align`, and is 0 exactly when `x` is already aligned |
| Memory.PaddingLeast | include/LinearArena.h:111 | no smaller padding reaches a multiple of `align`, so `x + Padding` is `x` rounded up |
| DynamicArrays.Repeat | include/DynamicArray.h:403-411 | the values `Resize` appends when growing: `k` copies of `T{}` |
| DynamicArrays.ResizedKeepsPrefix | include/DynamicArray.h:394-426 | resizing to `n` gives `n` elements, keeps every element both sizes share and fills the new slots with `T{}` |
| DynamicArrays.DynamicArray.constructor | include/DynamicArray.h:159-164 | a new array is empty with capacity 0 |
| DynamicArrays.DynamicArray.FromList | include/DynamicArray.h:166-176 | the initializer-list constructor holds exactly the list, with capacity equal to its length |
| DynamicArrays.DynamicArray.Copy | include/DynamicArray.h:178-189 | a copy holds the same elements in a fresh buffer, with capacity equal to the source's size |
| DynamicArrays.DynamicArray.Move | include/DynamicArray.h:191-199 | the new array takes over the source's buffer, elements and capacity; the source is left empty with capacity 0 |
| DynamicArrays.DynamicArray.CopyAssign | include/DynamicArray.h:207-229 | copy assignment gives the other array's elements and records the other's size as capacity, even without reallocating; self-assignment changes nothing |
| DynamicArrays.DynamicArray.MoveAssign | include/DynamicArray.h:231-252 | move assignment takes over the other's buffer, size and capacity and leaves the other empty with capacity 0 |
| DynamicArrays.DynamicArray.Equals | include/DynamicArray.h:254-270 | `operator==` is true exactly when the sizes agree and every pair of elements is equal under the element equality |
| DynamicArrays.SameElementsIsEquality | include/DynamicArray.h:254-270 | with `==` as the element equality, `operator==` is equality of the contents |
| DynamicArrays.DynamicArray.At | include/DynamicArray.h:277-304 | `operator[]` and `At` read the element at an index below the size |
| DynamicArrays.DynamicArray.Set | include/DynamicArray.h:277-282 | a write through `operator[]` changes exactly that element |
| DynamicArrays.DynamicArray.Front | include/DynamicArray.h:316-321 | the first element of a non-empty array |
| DynamicArrays.DynamicArray.Back | include/DynamicArray.h:323-328 | the last element of a non-empty array |
| DynamicArrays.DynamicArray.EmplaceBack | include/DynamicArray.h:361-372 | appends the value after the unchanged old contents; when full, capacity first becomes 4 (if 0) or double |
| DynamicArrays.DynamicArray.PushBack | include/DynamicArray.h:345-348 | appends the value after the unchanged old contents |
| DynamicArrays.DynamicArray.PopBack | include/DynamicArray.h:350-359 | removes exactly the last element; does nothing on an empty array; capacity unchanged |
| DynamicArrays.DynamicArray.Reserve | include/DynamicArray.h:428-445 | capacity becomes exactly `n` when `n` exceeds it, with every element kept; otherwise nothing changes, so it never shrinks |
| DynamicArrays.DynamicArray.Resize | include/DynamicArray.h:394-426 | the contents become `Resized(old, n, T{})`; capacity becomes `n` only when `n` exceeds it |
| DynamicArrays.DynamicArray.Clear | include/DynamicArray.h:447-460 | no elements remain; buffer and capacity are kept |
| DynamicArrays.DynamicArray.Assign | include/DynamicArray.h:462-474 | the contents become the list, after reserving its length |
| DynamicArrays.DynamicArray.Insert | include/DynamicArray.h:476-489 | the contents become `s[..p] + [v] + s[p..]` and index `p` is returned; capacity grows only when the size passes it |
| DynamicArrays.DynamicArray.InsertList | include/DynamicArray.h:516-533 | inserting an initializer list at `p` gives `s[..p] + v + s[p..]` and returns `p`; capacity becomes the new size when that exceeds it, as `Resize` does, and is kept otherwise |
| DynamicArrays.InsertListSteps | include/DynamicArray.h:516-533 | resize, shift with bound `p` plus the length of `v` less one, then copy: the three steps insert `v` at `p` |
| DynamicArrays.DynamicArray.InsertRange | include/DynamicArray.h:491-514 | the range `Insert` as written gives `InsertedAsWritten`, which loses the element at `p`; capacity becomes the new size when that exceeds it, as `Resize` does, and is kept otherwise |
| DynamicArrays.InsertRangeSteps | include/DynamicArray.h:491-514 | resize, shift with bound `p` plus the length of `v`, then copy: the steps as written give `InsertedAsWritten` |
| DynamicArrays.InsertRangeAgreesIff | include/DynamicArray.h:502-505 | the range insert as written agrees with a true insert exactly when nothing is inserted, it inserts at the end, or the lost element equals the one left in its place |
| DynamicArrays.InsertRangeCounterexample | include/DynamicArray.h:502-505 | inserting `[9]` at the front of `[1, 2, 3]` as written gives `[9, 2, 2, 3]` instead of `[9, 1, 2, 3]` |
| DynamicArrays.DynamicArray.InsertRangeCorrected | include/DynamicArray.h:491-514 | with the shift bound corrected to `pos + diff - 1`, the range insert gives `s[..p] + v + s[p..]`; capacity becomes the new size when that exceeds it, as `Resize` does, and is kept otherwise |
| DynamicArrays.DynamicArray.Erase | include/DynamicArray.h:551-577 | with both iterators in this array and `first < last`, the contents become `s[..f] + s[l..]` and `f` is returned; otherwise (End, equal iterators, another array) nothing changes and End is returned |
| DynamicArrays.DynamicArray.EraseAt | include/DynamicArray.h:535-549 | erasing one element removes exactly that element and returns its index |
| DynamicArrays.EraseUndoesInsert | include/DynamicArray.h:476-577 | erasing the range an insert filled restores the array |
| DynamicArrays.DynamicArray.Find | include/DynamicArray.h:579-597 | returns the first index whose element equals the value, or the size when none does |
| DynamicArrays.DynamicArray.Swap | include/DynamicArray.h:641-646 | the partition swap exchanges exactly the two elements |
| DynamicArrays.DynamicArray.Partition | include/DynamicArray.h:636-657 | one partition pass as written, turn by turn `PassStep`, rearranges only the range and ends with the cursors crossed, splitting it into two non-empty parts (no ordering is stated: see Findings) |
| DynamicArrays.PassStep | include/DynamicArray.h:636-657 | one turn of the partition loop as written compares the two cursors' elements with the element at the pivot index, swaps them when neither is on its side, and moves the cursors; the elements are kept as a multiset |
| DynamicArrays.DynamicArray.PartitionTurn | include/DynamicArray.h:636-657 | one turn of the loop in place is `PassStep` on the buffer |
| DynamicArrays.PassStepKeeps | include/DynamicArray.h:636-657 | a turn of the partition loop as written keeps both cursors in the range, brings them closer, and rearranges only the range |
| DynamicArrays.RequeueShrinks | include/DynamicArray.h:659-677 | requeueing the two halves keeps every range within bounds and lowers the queue's total width, so the sort loop ends |
| DynamicArrays.DynamicArray.Sort | include/DynamicArray.h:599-679 | with equal iterators or an empty array nothing changes; otherwise only elements from `front` to `back` (inclusive; reversed iterators accepted) are rearranged, as a permutation, and every other element is kept; it is not stated that they end in order (see Findings) |
| DynamicArrays.NonStrictLessStalls | include/DynamicArray.h:636-657 | with the non-strict `<=` as comparer, the partition loop over `[0, 1, 0]` reaches a state it never leaves |
| DynamicArrays.SortAsWrittenTrace | include/DynamicArray.h:636-678 | as written, sorting `[1, 2, 3, 0]` with `<` ends with `[0, 1, 3, 2]`: after the first swap the pivot index holds 0, and the element 3, where the cursors meet, joins the lower part although it is above the pivot |
| DynamicArrays.CorrectedStepKeeps | include/DynamicArray.h:636-657 | corrected (see Findings): each turn of the partition loop, comparing with a copy of the pivot element, keeps the cursors in the range and everything left of `lo` not above the pivot and right of `up` not below it, and brings the cursors closer |
| DynamicArrays.DynamicArray.PartitionCorrected | include/DynamicArray.h:636-657 | corrected (see Findings): a pass rearranges only the range and splits it into two non-empty parts, the lower not above the original pivot element and the upper not below it |
| DynamicArrays.RequeueOrdered | include/DynamicArray.h:659-678 | after a corrected pass over the head range and the requeue of its halves, the queue's ranges stay disjoint and every two positions no queued range holds together are in order |
| DynamicArrays.DynamicArray.SortCorrected | include/DynamicArray.h:599-679 | corrected (see Findings): for a strict weak order, the elements from `front` to `back` end as a permutation of the old ones, in order; nothing outside them changes |
| DynamicArrays.ReverseWalk | include/DynamicArray.h:59-135 | a reverse iterator at index `k` reads element `k - 1`, so the walk from `rBegin` reads the elements last first |
| DynamicArrays.ForwardToReverse | include/DynamicArray.h:38-55 | converting between forward and reverse iterators shifts the index by one, and the two conversions undo each other |
| StaticArrays.StaticArray.constructor | include/StaticArray.h:134 | a default array holds `Count` copies of `T{}` |
| StaticArrays.StaticArray.FromList | include/StaticArray.h:135-151 | a list of at most `Count` values fills the first elements in order and `T{}` fills the rest |
| StaticArrays.StaticArray.Copy | include/StaticArray.h:153-159 | a copy has equal elements in a buffer of its own, so later writes to the copy leave the original alone |
| StaticArrays.StaticArray.Move | include/StaticArray.h:161-167 | the move constructor gives element-wise equal contents |
| StaticArrays.StaticArray.CopyAssign | include/StaticArray.h:171-182 | copy assignment gives the other's elements |
| StaticArrays.StaticArray.MoveAssign | include/StaticArray.h:184-192 | move assignment gives this array the other's elements, with each element moved as a copy (see Left out) |
| StaticArrays.StaticArray.Equals | include/StaticArray.h:194-210 | `operator==` holds exactly when all `Count` elements are equal |
| StaticArrays.StaticArray.At | include/StaticArray.h:212-224 | `operator[]`/`At` read the element at an index below `Count` |
| StaticArrays.StaticArray.Front | include/StaticArray.h:227-230 | `Front` is element 0 |
| StaticArrays.StaticArray.Back | include/StaticArray.h:232-237 | `Back` is element `Count - 1` |
| StaticArrays.StaticArray.Size | include/StaticArray.h:276-279 | `Size` is always `Count`, the buffer's length |
| StaticArrays.StaticArray.Store | include/StaticArray.h:212-217 | a write through `operator[]` changes element `i` and no other |
| StaticArrays.StaticArray.Fill | include/StaticArray.h:281-288 | every element becomes the given value |
| StaticArrays.Deref | include/StaticArray.h:103-115 | `*it` reads the element at the iterator's index |
| StaticArrays.ForwardReadsAll | include/StaticArray.h:38-54 | from `Begin()` to `End()` the iterators read every element in order |
| StaticArrays.BackwardReadsReversed | include/StaticArray.h:38-115 | from `rBegin()` to `rEnd()` the reverse iterators read the elements last first |
| Lists.List.constructor | include/List.h:144-150 | a new list is empty, with `Size` 0 |
| Lists.List.FromList | include/List.h:152-158 | the initializer-list constructor holds the list's values in order |
| Lists.List.Move | include/List.h:162-166 | the new list holds the other's items in order; the other is left empty (corrected, see Findings) |
| Lists.List.MoveAssign | include/List.h:175-184 | move assignment from another list takes its items and leaves it empty; self-assignment changes nothing (corrected, see Findings) |
| Lists.List.Empty | include/List.h:385-388 | `Empty` holds exactly when `Size` is 0 |
| Lists.List.Size | include/List.h:390-393 | `Size` is the number of nodes on the ring |
| Lists.List.Front | include/List.h:187-192 | `Front` reads the node `Begin()` is at |
| Lists.List.Back | include/List.h:194-199 | `Back` reads the node `rBegin()` is at |
| Lists.List.Begin | include/List.h:468-487 | `Begin()` is the sentinel's successor, and equals `End()` exactly when the list is empty |
| Lists.List.RBegin | include/List.h:468-487 | `rBegin()` is the sentinel's predecessor |
| Lists.StepsUndo | include/List.h:63-103 | `++` and `--` on list iterators undo each other |
| Lists.ForwardReadsAll | include/List.h:63-75 | from `Begin()` to `End()` the iterators read every item in order |
| Lists.BackwardReadsReversed | include/List.h:77-89 | from `rBegin()` the reverse walk reads the items last first |
| Lists.List.Insert | include/List.h:396-421 | a node with the item goes immediately before `pos`; the size grows by one; the new node is returned |
| Lists.List.Erase | include/List.h:423-447 | at `End()` nothing changes and `End()` is returned; otherwise exactly that node goes and the following node is returned |
| Lists.ErasedUndoesInserted | include/List.h:396-447 | erasing a just-inserted node restores the list |
| Lists.InsertedUndoesErased | include/List.h:396-447 | re-inserting an erased item where it was restores the list |
| Lists.List.PushFront | include/List.h:216-221 | `PushFront` puts the item first |
| Lists.List.PushBack | include/List.h:223-228 | `PushBack` puts the item last |
| Lists.List.PopFront | include/List.h:230-237 | `PopFront` on a non-empty list removes the first item |
| Lists.List.PopBack | include/List.h:239-246 | `PopBack` on a non-empty list removes the last item |
| Lists.List.Clear | include/List.h:377-383 | popping from the front until empty leaves no items and `Empty()` true |
| Lists.List.Remove | include/List.h:360-375 | the items become `Removed(old, x)` |
| Lists.RemovedSpec | include/List.h:360-375 | after `Remove(x)` no item equals `x`, and every other value keeps its number of copies |
| Lists.RemovedAbsent | include/List.h:360-375 | removing an absent value changes nothing |
| Lists.List.Find | include/List.h:449-464 | by its evident intent: the first node whose item equals the value, or `End()` |
| Lists.List.Splice | include/List.h:248-275 | another list's items go in order before `pos`, and it is left empty; self-splice changes nothing; an empty other list changes nothing (corrected, see Findings) |
| Lists.List.SpliceOne | include/List.h:277-311 | one node moves from `other` to just before `pos`, adding one to this size and taking one from the other's; within one list the node is moved; `pos == itr` changes nothing |
| Lists.MovedPermutes | include/List.h:277-311 | moving a node within a list keeps its items, and the moved item lands just before `pos` |
| Lists.MovedInPlace | include/List.h:277-311 | moving a node before itself or its successor changes nothing |
| ListLinks.SpliceEmptyAsWrittenBreaks | include/List.h:248-275 | as written, splicing an empty list into an empty list links the receiving sentinel to the other's: `Empty()` becomes false while the count stays 0 |
| ListLinks.SpliceEmptyKeeps | include/List.h:248-275 | with the emptiness check added, splicing an empty list changes no link, so every empty list stays empty |
| ListLinks.SpliceOneNode | include/List.h:248-275 | with the check, splicing a one-node list into an empty one gives two well-linked rings |
| Arenas.HeaderOffset | include/Arena.h:78-81 | the page header's offset is the size rounded up to `alignof(Page)`: aligned, at least the size and less than the size plus the alignment |
| Arenas.HeaderOffsetLeast | include/Arena.h:78-81 | no smaller offset at or after the size is aligned |
| Arenas.Arena.constructor | include/Arena.h:28-33 | a new arena's sentinel links to itself, so it has no pages |
| Arenas.Arena.Move | include/Arena.h:36-49 | the move constructor takes every page and leaves the source without pages |
| Arenas.Arena.MoveAssign | include/Arena.h:57-73 | from another arena with pages, the pages move over and the source is emptied; from an empty source or from itself, nothing changes |
| Arenas.Arena.Allocate | include/Arena.h:76-100 | when `::operator new` succeeds, the block becomes the ring's tail with its page header at `HeaderOffset(memorySize)` and is returned; when it fails, null is returned and the ring is unchanged |
| Arenas.Arena.Deallocate | include/Arena.h:102-130 | null changes nothing; otherwise the first page with that block is unlinked, together with its header, and the rest stay in order; an unowned pointer changes nothing |
| Arenas.RemoveFirstSplit | include/Arena.h:109-128 | unlinking the first occurrence keeps everything before and after it in order |
| Arenas.RemoveFirstMultiset | include/Arena.h:109-128 | unlinking removes one copy of the block when there is one, and nothing else |
| Arenas.RemoveFirstAbsent | include/Arena.h:109-128 | a block not in the ring leaves it unchanged |
| Arenas.RemoveFirstUndoesAppend | include/Arena.h:76-128 | freeing the block just allocated restores the ring |
| LinearArenas.PageSize | include/LinearArena.h:116-125 | a new page's usable size is at least the object and 64 KiB, a multiple of `alignof(Page)`, and less than the larger of the two plus that alignment |
| LinearArenas.Bump | include/LinearArena.h:143-148 | an allocation starts at the page offset plus padding, which is aligned and within one alignment of the offset; the offset then advances past the object |
| LinearArenas.LinearArena.constructor | include/LinearArena.h:50-55 | a new arena has no pages |
| LinearArenas.LinearArena.Move | include/LinearArena.h:58-71 | the move constructor takes the ring and leaves the source empty |
| LinearArenas.LinearArena.MoveAssign | include/LinearArena.h:79-95 | from another arena with pages, the ring moves over and the source is emptied; otherwise nothing changes |
| LinearArenas.LinearArena.Allocate | include/LinearArena.h:107-151 | a page of `PageSize(objectSize)` is opened at the tail exactly when `NeedsPage` holds (null when `::operator new` fails); the object is cut from the tail page, fits inside it, and overlaps no allocation made since the last `Reset` |
| LinearArenas.NewPageFits | include/LinearArena.h:116-148 | the first allocation from a page opened for an object starts at 0 and fits |
| LinearArenas.TailFits | include/LinearArena.h:114 | without a new page, the tail has room for the padded object with a byte to spare, because the test is `>=` |
| LinearArenas.LinearArena.Reset | include/LinearArena.h:153-162 | every page's offset becomes 0, the number and order of pages are kept, and no allocation remains live |
| HashTables.GrownSize | include/HashTable.h:422-425 | the size `Emplace` rehashes to is 4 for an empty table and twice the slots otherwise |
| HashTables.NeedsRehashAgrees | include/HashTable.h:422 | the load test `count >= 0.7 * MaxSize()`, taken as `10 count >= 7 MaxSize()`, agrees with the `float` test against 0.7f = 11744051 / 2^24 for every table below 2^23 slots |
| HashTables.HashTable.MaxSize | include/HashTable.h:326-329 | `MaxSize()` is the number of slots |
| HashTables.HashTable.Size | include/HashTable.h:321-324 | `Size` is the number of elements held |
| HashTables.HashTable.Empty | include/HashTable.h:331-334 | `Empty` holds exactly when no element is held |
| HashTables.HashTable.constructor | include/HashTable.h:268-271 | a new table has no slots and no elements |
| HashTables.HashTable.Copy | include/HashTable.h:273-276 | the copy constructor gives the same slots in a list of its own |
| HashTables.HashTable.Move | include/HashTable.h:278-283 | the move constructor takes the other's slot buffer and leaves it without slots or elements |
| HashTables.HashTable.FromList | include/HashTable.h:285-292 | the initializer-list constructor holds `EmplaceAll` of the list: each element unless an earlier one has its key |
| HashTables.HashTable.CopyAssign | include/HashTable.h:296-305 | copy assignment gives the other's slots |
| HashTables.HashTable.MoveAssign | include/HashTable.h:307-318 | move assignment takes the other's slots and leaves it empty |
| HashTables.HashTable.FindIndex | include/HashTable.h:593-629 | the index returned holds an element whose key the comparer matches, or is `MaxSize()`; with an equality comparer it is `MaxSize()` exactly when no element has the key |
| HashTables.HashTable.Find | include/HashTable.h:543-567 | `Find` gives End exactly when no element has the key (with an equality comparer), and otherwise an occupied slot the comparer matches |
| HashTables.HashTable.Rehash | include/HashTable.h:341-382 | (corrected, see Findings) given at least as many slots as elements, every element is placed again into `newSize` slots with the Robin Hood invariant restored; elements and count are unchanged |
| HashTables.HashTable.Place | include/HashTable.h:355-378 | the probe loop of `Rehash` places one element with a key not yet present, keeping the invariant |
| HashTables.HashTable.Emplace | include/HashTable.h:419-467 | after the load-factor check (rehash to `GrownSize` when `count >= 0.7 * MaxSize`) the element is inserted exactly when no element has its key; the returned iterator is at the new element or at the one holding its key |
| HashTables.HashTable.Carry | include/HashTable.h:454-463 | one probe step: the carried element swaps with the occupant exactly when its psl is strictly greater, and the carried one moves on with psl one higher |
| HashTables.HashTable.Insert | include/HashTable.h:391-403 | with an equality comparer the element is inserted exactly when its key is absent, and `second` says so; otherwise the element holding the key is returned |
| HashTables.HashTable.TryEmplace | include/HashTable.h:405-417 | the element is emplaced only when the comparer finds nothing for the key, and `second` says whether it was |
| HashTables.HashTable.Erase | include/HashTable.h:490-541 | iterators of another table change nothing and give End; equal iterators change nothing and give `last`; otherwise exactly the elements of the range's slots go, with the corrected length, and the first occupied slot from `first` on is returned |
| HashTables.HashTable.EraseAt | include/HashTable.h:482-488 | `Erase(pos)` removes exactly the element at `pos` and returns the next occupied slot (corrected, see Findings) |
| HashTables.HashTable.EraseKey | include/HashTable.h:469-480 | (corrected, see Findings) at most one element, one the comparer matches, goes; with an equality comparer no element with the key remains, so a later `Find` gives End; the result is End with the slots unchanged when nothing matched, and otherwise `Erase(it)`'s result for the matching slot: the first occupied slot from it on after the shift |
| HashTables.VacateOne | include/HashTable.h:505-515 | moving an element out of a slot leaves that slot empty, and reports whether it held one |
| HashTables.VacateRange | include/HashTable.h:505-515 | the first erase loop empties exactly the `length` slots from `f` on (wrapping round) and lowers the element count by the number of elements it moved out, as `m_count--` does |
| HashTables.HashTable.ShiftOne | include/HashTable.h:520-538 | one backward-shift step moves the element after the gap back by the lesser of its psl and the gap, lowering its psl by as much |
| HashTables.EraseLengthAgrees | include/HashTable.h:502-503 | the erase length as written, `(n + last - first) % n`, is the ring distance, and differs from the number of slots in the range only for `first == 0, last == n` |
| HashTables.EraseAtSlotZeroAsWritten | include/HashTable.h:482-503 | a table whose only element sits in slot 0 gets a length-0 erase as written, which removes nothing |
| HashTables.HashTable.Assign | include/HashTable.h:185-197 | a write through an iterator that keeps the key replaces exactly that slot's element, with the invariant kept |
| HashTables.HashTable.Clear | include/HashTable.h:384-388 | `Clear` leaves no slots and no elements |
| HashTables.HashTable.ReserveAsWritten | include/HashTable.h:336-339 | `Reserve` as written resizes the slot list to `n` slots and moves no element |
| HashTables.ReserveAsWrittenBreaksTable | include/HashTable.h:336-339 | growing as written leaves an element off its home slot, and shrinking loses it |
| HashTables.HashTable.Reserve | include/HashTable.h:336-339 | corrected: grows to `n` slots by rehashing, keeping elements and count; never shrinks |
| HashTables.HashTable.FindUpperIndex | include/HashTable.h:200-220 | the first occupied slot at or after the start, or `MaxSize()` |
| HashTables.HashTable.FindLowerIndex | include/HashTable.h:222-242 | the last occupied slot at or before the start, passing over `MaxSize()`, or 0 |
| HashTables.HashTable.Begin | include/HashTable.h:579 | `Begin()` is the first occupied slot, and is End exactly when the table is empty |
| HashTables.HashTable.End | include/HashTable.h:580 | `End()` is index `MaxSize()` |
| HashTables.Increment | include/HashTable.h:128-140 | `++it` goes to the next occupied slot or End |
| HashTables.Decrement | include/HashTable.h:142-154 | `--it` goes to the last occupied slot before, or slot 0 |
| HashTables.Deref | include/HashTable.h:185-197 | `*it` at an occupied slot reads an element of the table |
| HashTables.HashTable.FindReverseIndex | include/HashTable.h:222-242 | corrected (see Findings): the reverse position search from `start` stops just past the last occupied slot below `start`, or at 0, and every slot it passes is empty |
| HashTables.HashTable.RBegin | include/HashTable.h:587-590 | corrected (see Findings): `rBegin()` is just past the last occupied slot, and equals `rEnd()` exactly when the table is empty |
| HashTables.HashTable.REnd | include/HashTable.h:587-590 | `rEnd()` is position 0 of this table |
| HashTables.RIncrement | include/HashTable.h:128-140 | corrected (see Findings): `++rit` goes just past the next occupied slot below the one it reads |
| HashTables.RDecrement | include/HashTable.h:142-154 | corrected (see Findings): `--rit` goes just past the first occupied slot at or above its position |
| HashTables.RDeref | include/HashTable.h:185-197 | `*rit` reads the slot below its position, an element of the table when that slot is occupied |
| TableWalks.UpperIndex | include/HashTable.h:200-220 | the scan up stops at the first occupied slot, and every slot it passes is empty |
| TableWalks.LowerIndex | include/HashTable.h:222-242 | the scan down stops at an occupied slot or at 0, and every slot it passes is empty |
| TableWalks.ForwardWalkComplete | include/HashTable.h:103-140 | iterating from `Begin()` to `End()` reads every element exactly once, in slot order |
| TableWalks.ReverseWalkAsWrittenMisses | include/HashTable.h:103-197 | as written, a table whose only element is in slot 0 has `rBegin() == rEnd()`, so the reverse walk reads nothing |
| TableWalks.ReverseWalkReverses | include/HashTable.h:103-197 | with the corrected index search, the reverse walk reads the forward walk reversed |
| RobinHood.FullHasNoHole | include/HashTable.h:355-363 | a slot list with as many elements as slots has no empty slot for the probe to stop at |
| RobinHood.FullListNoProbeExit | include/HashTable.h:355-378 | in a full slot list, an element whose key no held element has meets neither an empty slot nor its own key, so neither exit of `Rehash`'s probe loop fires |
| RobinHood.KeyAbsentOccupants | include/HashTable.h:593-629 | when no occupied slot has a key, no element has it |
| RobinHood.ReplaceKeeps | include/HashTable.h:185-197 | overwriting an element with one of the same key keeps the invariant and trades one element for the other |
| HashMaps.EntryPerKey | include/HashMap.h:13-26 | in a table keyed by `PairSelector`, two entries with the same first component are the same entry |
| HashMaps.Subscript | include/HashMap.h:34-47 | `operator[]` returns a slot holding the key: with an equality comparer, a new `(key, Value{})` exactly when the key was absent (size +1), otherwise the stored entry with the elements unchanged |
| HashMaps.Store | include/HashMap.h:34-47 | `map[k] = v` adds `(k, v)` for a new key, and otherwise replaces the entry for `k` by `(k, v)` with every other entry unchanged |
| HashMaps.At | include/HashMap.h:50-66 | `At` on a present key returns the value stored with it |
| HashMaps.TensSize | demofile/main.cpp:149-156 | the entries `(i, 10 i)` for `i < n` number `n` |
| HashMaps.FillHundred | demofile/main.cpp:149-169 | `map[i] = i * 10` for `i` below 100 gives 100 entries, each key with its value, whatever the hash function |
| HashMaps.BasicOps | demofile/main.cpp:23-42 | writing 1, 2, 10, emplacing 5 and rewriting 1 gives four entries, with 1 mapped to the rewritten value |
| HashMaps.Rewritten | demofile/main.cpp:26-37 | the entries after the rewrite of key 1 are exactly the four expected |
| HashSets.HeldOnce | include/HashSet.h:8-17 | with the element as its own key, the set holds each value at most once |
| HashSets.SameKeySameValue | include/HashTable.h:26-33 | under `DefaultSelector`, a write that keeps the key keeps the element, which is why the set's iterator is const |
| HashSets.EmplaceAllSet | include/HashTable.h:285-292 | building a set from a list holds each distinct value of the list exactly once, and nothing else |
| HashSets.InitListDistinct | demofile/main.cpp:195 | `{3, 1, 2, 3, 4, 2, 2, 4}` gives exactly `{1, 2, 3, 4}` |
| HashSets.DuplicateIgnored | demofile/main.cpp:280-290 | emplacing `(1,1), (2,2), (1,1), (3,3)` gives three elements |
| HashSets.InsertPresent | include/HashTable.h:391-403 | `Insert` of a present value reports no insertion and changes nothing |
| HashSets.InsertDemo | demofile/main.cpp:195-211 | inserting 10, 15 and 10 again into the demo set reports no insertion the second time and leaves six values |

## Left out

- Raw memory: placement new, explicit destructors, byte addresses and the `Page` headers' own fields. A block is an id. A `LinearArena` page is a block with its size and bump offset. An `Arena` page is a block with the offset of its header, and the header's own size (`sizeof(Page)`) is not modelled. `::operator new`'s result is a parameter.
- Teardown: the destructors, `Arena::Reset` and `LinearArena::Release` are not modelled, and nothing in the model depends on blocks being returned. `Release` runs `~Page` on each page with a block, and `~Page` frees that block with `delete data` (include/LinearArena.h:33-39). The block is the one the page header itself was placed in (include/LinearArena.h:130), and it is freed with `delete` rather than the `::operator delete` that `Arena::Reset` uses.
- Allocator lifetime on a `DynamicArray` move (include/DynamicArray.h:191-199, 231-252): the allocator is not transferred, so the moved buffer stays registered with the source's `Arena`. `HashTable::Rehash` relies on such a move. Contents are modelled as values, so this lifetime defect is outside the model.
- `LOAD_FACTOR` is a `float` 0.7, which is 11744051 / 2^24. It is the exact fraction 7/10 here (`NeedsRehash`). `NeedsRehashAgrees` shows the two tests agree below 2^23 slots. There the `float` product is exact for power-of-two sizes, which are the sizes `Emplace` grows through. Larger tables, and the rounding of the product for other sizes, are not modelled.
- Hashers, selectors and comparers are function parameters. `std::hash` is not modelled.
- Slot psl is an unbounded integer. The source's `int16_t` would overflow past 32767 probe steps, which the model does not capture.
- `HashTable::Rehash`'s equal-key check (include/HashTable.h:366-369) is never taken, because a valid table has distinct keys. `Place` requires the key to be absent.
- List iterators: a `ListIterator` is a position in the ring, not a node. An iterator kept across `Insert`, `Erase` or `Splice` in the model can therefore point to a different item afterwards, whereas a C++ node iterator stays on its node. No contract in the model relies on an iterator held across such a change.
- Iterator template plumbing is reduced to index arithmetic: const/non-const and conversion constructors, `operator->` and postfix forms. That includes the `ReverseIterator` alias of `HashTable` for maps, which is a forward iterator (include/HashTable.h:257).
- `DynamicArray::Insert(pos, initializer_list)` indexes a `std::initializer_list` (include/DynamicArray.h:529) and would not compile when instantiated. `InsertList` models its evident intent.
- `List::Find` compares a node pointer with the sentinel object (include/List.h:452) and would not compile. Lists.List.Find models its evident intent.
- The range `List::Splice(pos, other, first, last)` (include/List.h:313-358) assigns a `NodeBase*` to a `Node*` and would not compile. It is not modelled.
- Lists.List.Insert: running out of memory (a null node from the allocator) is not modelled.
- StaticArrays.StaticArray.Move: a moved-from element keeps its value here. The source leaves it in whatever state the element type's move leaves.
- StaticArrays.StaticArray.MoveAssign: each element is moved as a copy, so the other array's moved-from elements keep their values. The operator has no self check (include/StaticArray.h:184-192), and what moving an element onto itself leaves depends on the element type. The model takes self-move-assignment to keep every element, which the source does not promise.
- HashTables.HashTable.Rehash: requires at least as many new slots as elements. The source's `Rehash` is public and checks nothing. For `0 < newSize < Size()` its probe loop never ends once the new list is full (see Findings). For `newSize == 0` with any element it takes `% 0`, which is undefined behaviour. Only the call inside `Emplace` (include/HashTable.h:424) guarantees the room.
- Default-initialised scalars in `StaticArray()` are given the value `blank`. C++ leaves them indeterminate.
- DynamicArrays.DynamicArray.Sort: states only that the range is rearranged, not that it ends in order. As written the partition compares against the element at the pivot index, which swaps move, and puts the element where the cursors meet in the lower part whatever it compares as, so the result need not be sorted (see Findings). `SortCorrected` is proved to sort.
- DynamicArrays.DynamicArray.InsertRange: takes the inserted values as they are at the call. When the iterators point into the receiving array itself, the source reads them after `Resize` and the shift have moved its elements (include/DynamicArray.h:491-514). The model does not capture that aliasing.
- DynamicArrays.DynamicArray.PushBack: states only that capacity does not shrink. `EmplaceBack`, which `PushBack` calls, states the exact growth rule.
- HashTables.HashTable.FindIndex: "absent exactly when End" is stated only for a comparer that is key equality. With another comparer, only "a returned index matches" is stated.
- HashTables.HashTable.Insert: with a comparer other than key equality, only one direction of "inserted exactly when absent" is stated.
- HashMaps.Subscript: which entry is returned is stated only for an equality comparer. Otherwise the entry is one the comparer matches.
- HashMaps.Store: its result is stated only for an equality comparer.
- HashMaps.At: requires the key to be present (the source asserts it) and an equality comparer.
- HashMaps.BasicOps: generic in its values. The demo's strings "One", "Two", "Ten", "Five" and "Uno" are any five values.
- The demo's erase loop over a `HashSet` (demofile/main.cpp:242-252) is not modelled. As written the loop never ends once the only element left is in slot 0. There `Erase(it)` computes length 0 (the second finding below), removes nothing, and returns an iterator to slot 0 again. The model's `EraseAt` uses the corrected length.
- The stray global `std::unordered_map` in include/HashMap.h:8 is not part of this model.
- `Arena.cpp` (a separate `operator new`/`delete` wrapper) is not part of this model.
- LinearArena alignment: the padding aligns the offset within a page, not the absolute address, exactly as the source computes it.
- `Allocate<T>` (include/LinearArena.h:98-105) is `Allocate(sizeof(T), alignof(T))`. `LinearArenas.LinearArena.Allocate` covers it with the two sizes as parameters.

## Findings

| source | as written | input that shows it | evidently intended | confidence | as-written member | corrected member |
|---|---|---|---|---|---|---|
| include/DynamicArray.h:502-505 | the range `Insert` shifts only while `index > pos + diff`, leaving slot `pos + diff` unshifted | `[1, 2, 3]`, insert `[9]` at 0 gives `[9, 2, 2, 3]` | shift while `index > pos + diff - 1`, giving `[9, 1, 2, 3]` | high; not executed | DynamicArrays.InsertRangeCounterexample | DynamicArrays.DynamicArray.InsertRangeCorrected |
| include/HashTable.h:502-503 | the erase length `(n + last - first) % n` is 0 for `first == 0, last == n` | a 4-slot table whose only element is in slot 0: `Erase(Begin())` removes nothing, and neither does `Erase(key)` for that element's key, which goes through `Erase(it)` | the length is the number of slots from `first` to `last`, `n` for the whole table | high; not executed | HashTables.EraseAtSlotZeroAsWritten | HashTables.HashTable.EraseAt |
| include/HashTable.h:336-339 | `Reserve` resizes the slot list without re-placing elements | one element with hash 5 at slot 1 of 4: growing to 8 slots leaves it off its home slot 5, and shrinking to 1 slot drops it | grow by rehashing, never shrink | high; not executed | HashTables.ReserveAsWrittenBreaksTable | HashTables.HashTable.Reserve |
| include/HashTable.h:341-382 | `Rehash(newSize)` probes until it meets an empty slot or the same key, with no check that `newSize` slots hold every element | a table with two elements, `Rehash(1)`: the second element finds the only slot held by another key and probes forever; `Rehash(0)` on a non-empty table takes `% 0` | a new size of at least `Size()`, as the call in `Emplace` (line 424) always passes | medium; not executed | RobinHood.FullListNoProbeExit | HashTables.HashTable.Rehash |
| include/HashTable.h:103-197 | reverse iterators move with `FindLowerIndex` to an occupied slot but read the slot below it | a 4-slot table whose only element is in slot 0: `rBegin()` lands on 0, equal to `rEnd()`, and nothing is read | stop one past an occupied slot, so each element is read once, last first | high; not executed | TableWalks.ReverseWalkAsWrittenMisses | TableWalks.ReverseWalkReverses |
| include/List.h:248-275 | `Splice(pos, other)` does not check that `other` has a node, and links `other`'s sentinel into this ring | moving an empty list (move constructor or move assignment, List.h:162-184) into an empty list: `Empty()` becomes false while `Size()` is 0 | return early when `other` is empty | high; not executed | ListLinks.SpliceEmptyAsWrittenBreaks | ListLinks.SpliceEmptyKeeps |
| include/DynamicArray.h:636-657 | the partition loop compares against `m_data[pivot.pivot]`, an element that swaps can move, and where the cursors meet it moves `lo` past the element whatever the comparison gave, so that element joins the lower part | `[1, 2, 3, 0]` sorted with `<` gives `[0, 1, 3, 2]` | compare against a copy of the pivot element, and place the element where the cursors meet on the side it belongs to | high; not executed | DynamicArrays.SortAsWrittenTrace | DynamicArrays.DynamicArray.SortCorrected |
