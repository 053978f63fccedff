# A verified model of myalloc and the array multimap

This project models, in Dafny, the two independent components of the
repository:

- **myalloc**, a boundary-tag pool allocator over one byte arena of
  `MEMORY_SIZE` bytes. Every block is `[int tag][payload][int tag]`. The tag's
  magnitude is the payload size and its sign is the state: positive means
  free, negative means allocated. Free blocks keep a `node` (`space`,
  `next`, `prev`) in their first 24 payload bytes. Through it they form a
  LIFO doubly linked free list headed by `freeList`. The operations are
  `init_myalloc`, `myalloc` (best fit by `findHead`, optional `splitBlock`),
  `myfree` (`isValid`, `addNode`, O(1) backward and forward `coalesce`),
  `myrealloc` (speculative free and re-allocate, with hand-written rollback)
  and `checkMem`.
- **the multimap**: a binary search tree from `int` keys to lists of `int`
  values. It is stored in one array whose slot `i` has children `2i+1` and
  `2i+2`, and which grows to complete-tree sizes (`findMaxI`,
  `alloc_mm_node`).

Files:

- `bytes.dfy` (`Bytes`): little-endian encodings of 4-byte `int` tags and
  8-byte links, with round-trip lemmas.
- `layout.dfy` (`Layout`): the arena as a sequence of `Block`s. Covers
  tiling, split, merge, the set of free blocks, and the best-fit scan as a
  function with its correctness lemma.
- `pool.dfy` (`Pool`): the abstract effect of `myalloc`, `myfree` and the
  rollback of `myrealloc` on the layout and the free list, with the
  invariant each keeps. Also the `checkMem` sum.
- `myalloc.dfy` (`MyAlloc`): the class `Allocator`. Its arena is a byte
  `array`, `freeList` is an offset (NULL is -1) and links are stored as
  8-byte addresses `base + offset` (NULL is 0). Ghost `blocks` and `flist`
  tie the bytes to the layout. Every C function is a method that reads and
  writes the bytes as the source does.
- `scenarios.dfy` (`Scenarios`): the call sequence of `myalloc/simpletest.c`
  with `myrealloc` as the source writes it, and the concrete runs behind the
  findings below.
- `tree.dfy` (`Tree`): the array tree as a sequence of `Node`s. Covers
  search, contents, search-tree order, in-order traversal, and the arithmetic
  of complete-tree sizes.
- `multimap.dfy` (`MultiMap`): the class `MultiMap` with `maxI` and the slot
  sequence, and every operation of the multimap as a method.
- `map_scenarios.dfy` (`MapScenarios`): concrete runs of the multimap.

Layout constants follow LP64, which the code assumes:

- `sizeof(int)` is 4.
- `sizeof(node)` is 24: `space` at 0, padding at 4, `next` at 8, `prev` at 16.
- So the minimum payload is 20, and a block is split iff `space > size + 28`.

The allocator invariant (`Allocator.Valid`) says:

- the blocks tile `[0, MEMORY_SIZE)`;
- both tags of every block hold its signed size;
- every payload is at least 20 bytes;
- no two adjacent blocks are both free;
- the free list holds every free block exactly once, and nothing else;
- the links in the arena spell out that list.

## Model

| member | source | states |
|---|---|---|
| Bytes.Int32RoundTrip | myalloc/myalloc.c:188-191 | decoding the four bytes stored for an `int` tag gives the tag back |
| Bytes.Int32BytesRoundTrip | myalloc/myalloc.c:188-191 | re-encoding a decoded tag gives the same four bytes |
| Bytes.U64RoundTrip | myalloc.h:18-23 | decoding the eight bytes stored for a `next`/`prev` link gives the pointer back |
| Bytes.U64BytesRoundTrip | myalloc.h:18-23 | re-encoding a decoded link gives the same eight bytes |
| Layout.SplitWf | myalloc/myalloc.c:510-533 | splitting a block of a tiled layout at k ≥ 20, with at least 28 bytes to spare, keeps the tiling and the 20-byte minimum; the two pieces have payloads k and s−k−8 |
| Layout.MergeWf | myalloc/myalloc.c:641-653 | merging two adjacent blocks into one of payload A+B+8 keeps the tiling and the minimum payload |
| Layout.SplitUndoesMerge | myalloc/myalloc.c:353-368 | splitting a merged pair at the first block's old payload gives back exactly the pair |
| Layout.BestFitCorrect | myalloc/myalloc.c:556-584 | the scan finds nothing iff no listed block has payload ≥ size; otherwise it returns the first node in list order with the smallest qualifying payload |
| Layout.BestFitUnique | myalloc/myalloc.c:556-584 | the first smallest fit is unique, so the early exit on an exact fit picks the same node |
| Pool.RemoveElems | myalloc/myalloc.c:601-617 | removing a node from a duplicate-free list removes exactly that node and keeps the list duplicate-free |
| Pool.RemoveAtIndex | myalloc/myalloc.c:601-617 | removing the node at position k leaves the nodes before and after it in order |
| Pool.PushElems | myalloc/myalloc.c:624-634 | pushing an unlisted node keeps the list duplicate-free and adds exactly that node |
| Pool.InitInv | myalloc/myalloc.c:115-140 | one free block of payload `MEMORY_SIZE`−8 at offset 0, listed alone, satisfies the pool invariant |
| Pool.Clamp | myalloc/myalloc.c:167 | the clamped request is at least the request and at least 20, and is one of the two |
| Pool.ClampAsWrittenAgrees | myalloc/myalloc.c:167 | for non-negative sizes the `int`/`size_t` `MAX` of the source equals the intended clamp |
| Pool.ClampAsWrittenNegative | myalloc/myalloc.c:167 | a negative size passes the source's `MAX` unchanged and stays below 20, where the intended clamp gives 20 |
| Pool.AllocWf | myalloc/myalloc.c:174-191 | taking k ≥ 20 bytes from a free block (splitting iff space > k+28) keeps tiling and minimum payload |
| Pool.AllocNoAdjacentFree | myalloc/myalloc.c:174-191 | allocating from a free block never creates two adjacent free blocks |
| Pool.AllocListed | myalloc/myalloc.c:174-179 | after allocation the list (remainder pushed, block removed) holds exactly the free blocks, once each |
| Pool.AllocInv | myalloc/myalloc.c:153-193 | `myalloc`'s effect on layout and list keeps the whole pool invariant |
| Pool.AllocResult | myalloc/myalloc.c:159-191 | the taken block is allocated at the same offset with payload ≥ k; when split, the payload is exactly k and the free remainder of more than 20 bytes heads the list; otherwise the payload is unchanged; the block is off the list |
| Pool.BestFitNone | myalloc/myalloc.c:153-158 | with every free block listed, `findHead` finds nothing iff no free block has payload ≥ size |
| Pool.BestFitChoice | myalloc/myalloc.c:556-584 | otherwise the chosen node is a free block with payload ≥ size, no larger than any other qualifying free block |
| Pool.BestFitClamp | myalloc/myalloc.c:153-167 | because every payload is ≥ 20, searching with the unclamped size picks the same node as with the clamped size |
| Pool.ListSpacesMin | myalloc/myalloc.c:167 | every listed free block has payload ≥ 20 |
| Pool.FreeWf | myalloc/myalloc.c:234-267 | freeing a block and merging it with free neighbours keeps the tiling and minimum payload |
| Pool.FreeShape | myalloc/myalloc.c:238-267 | `myfree` merges the block with at most its immediate predecessor and its immediate successor, and every other block stays as it was |
| Pool.FreeNoAdjacentFree | myalloc/myalloc.c:238-267 | after `myfree` no two address-adjacent blocks are both free |
| Pool.FreeListed | myalloc/myalloc.c:236-265 | after `myfree` the list holds exactly the free blocks, once each |
| Pool.FreeInv | myalloc/myalloc.c:216-269 | `myfree`'s effect keeps the whole pool invariant |
| Pool.RollbackListed | myalloc/myalloc.c:350-372 | after the rollback the list holds exactly the original free blocks, once each, and not the restored block |
| Pool.UndoBoth | myalloc/myalloc.c:353-358 | when both neighbours were merged, splitting at the predecessor's size and then at the old size gives back the original layout with the old block free |
| Pool.UndoPrev | myalloc/myalloc.c:359-362 | when only the predecessor was merged, splitting at its size gives back the layout |
| Pool.UndoNext | myalloc/myalloc.c:363-368 | when only the successor was merged, splitting at the old size gives back the layout |
| Pool.UnmarkRestores | myalloc/myalloc.c:375-378 | making the re-split block allocated again restores the original layout |
| Pool.SpanTotal | myalloc/myalloc.c:439-465 | the allocated and free spans of a tiled layout add up to `MEMORY_SIZE` |
| MyAlloc.Allocator.constructor | myalloc/myalloc.c:115-140 | the arena is one free block at 0 of payload `MEMORY_SIZE`−8, which is the whole free list; the invariant holds |
| MyAlloc.Allocator.AddNode | myalloc/myalloc.c:624-634 | the node becomes the head with NULL `prev`; the list is the node followed by the old list; only link bytes change |
| MyAlloc.Allocator.RemoveNode | myalloc/myalloc.c:601-617 | the list loses exactly that node, the others keep their order, and `freeList` advances if it was the head; only link bytes change |
| MyAlloc.Allocator.SplitBlock | myalloc/myalloc.c:510-533 | the layout becomes the split at `size`; the remainder header is `headptr+size+8`; only the four tag slots change |
| MyAlloc.Allocator.Coalesce | myalloc/myalloc.c:641-653 | the two blocks become one of payload A+B+8 and B leaves the free list; only the new tag pair and list links change |
| MyAlloc.Allocator.FindHead | myalloc/myalloc.c:556-584 | the result is the node the best-fit scan selects, or NULL |
| MyAlloc.Allocator.Alloc | myalloc/myalloc.c:147-194 | NULL iff no free block fits, with nothing changed; otherwise the payload offset of the best-fit block, which is allocated and off the list with payload ≥ max(size, 20), and the invariant holds; the only bytes that change are the tags of that block and of a split-off remainder and the list links, so every allocated payload is kept |
| MyAlloc.Allocator.Take | myalloc/myalloc.c:159-191 | split if the excess exceeds 28, remove, and mark allocated; the result is `h+4`; the bytes that change lie in the tags of the taken block and of the remainder, or in the link fields of the list nodes |
| MyAlloc.Allocator.SplitExcess | myalloc/myalloc.c:174-178 | splits and pushes the remainder iff the payload exceeds the request by more than 28; only those tags and list links change |
| MyAlloc.TakeKeeps | myalloc/myalloc.c:159-191 | the tags and links `myalloc` writes lie outside every allocated payload, so no allocated block's payload changes |
| MyAlloc.Allocator.MergeBack | myalloc/myalloc.c:238-256 | merges with the predecessor iff it is free; returns the header and size of the block now holding the freed one |
| MyAlloc.Allocator.MergeForward | myalloc/myalloc.c:258-267 | merges with the successor iff it is free |
| MyAlloc.Allocator.FreeBlock | myalloc/myalloc.c:224-268 | the layout and list become those of `myfree`; only tags near the block and list links change; the invariant holds |
| MyAlloc.Allocator.Free | myalloc/myalloc.c:216-269 | aborts with nothing changed iff `isValid` rejects the pointer; otherwise the block is freed and coalesced as above, and every block still allocated keeps its payload |
| MyAlloc.FreeKeeps | myalloc/myalloc.c:224-268 | the tags near the freed block and the links `myfree` writes lie outside the payload of every block that stays allocated |
| MyAlloc.Allocator.IsValid | myalloc/myalloc.c:473-501 | an accepted pointer lies in `[4, MEMORY_SIZE−4]` and has a non-positive header tag |
| MyAlloc.Allocator.IsValidAccepts | myalloc/myalloc.c:468-501 | `isValid` never rejects the payload pointer of an allocated block |
| MyAlloc.Allocator.IsValidRejectsFree | myalloc/myalloc.c:480-489 | `isValid` rejects the payload pointer of a free block |
| MyAlloc.Allocator.CheckMem | myalloc/myalloc.c:439-465 | the address-order walk returns the allocated plus free spans, which equal `MEMORY_SIZE` |
| MyAlloc.Allocator.ReallocPrep | myalloc/myalloc.c:284-337 | saves the old size, the two payload words that become links, and whether the predecessor and successor are free |
| MyAlloc.Allocator.Rollback | myalloc/myalloc.c:350-379 | in all four merge cases: the layout is as before; the list holds the same nodes, with a merged successor re-pushed at the front; only tags near the block and list links changed; the two saved words are back |
| MyAlloc.Allocator.ReallocFail | myalloc/myalloc.c:350-380 | after the failure path, the only bytes that differ from the arena before the call are link fields of free-list nodes; so every allocated block, the target included, has its tags and payload unchanged |
| MyAlloc.Allocator.Realloc | myalloc/myalloc.c:279-409 | corrected `myrealloc`: NULL iff nothing fits after the free, and then layout, list membership and all allocated bytes are restored; otherwise the new block is the best fit for the request in the freed pool and starts with the first min(old size, request) bytes of the old payload; on success every changed byte lies in a tag or link slot that `myfree` and `myalloc` write, or in the copied prefix |
| MyAlloc.ReallocKeeps | myalloc/myalloc.c:279-409 | the corrected `myrealloc` leaves every allocated payload as it was on failure, and on success every payload but the reallocated one |
| MyAlloc.Allocator.ReallocAsWritten | myalloc/myalloc.c:279-409 | `myrealloc` as written: the same layout, list and failure path; on success the new payload is the source's copy (`AsWrittenBytes`) of the arena as `myfree` and `myalloc` left it, and that arena differs from the old one only in the tag and link slots they write |
| MyAlloc.ReallocAsWrittenKeeps | myalloc/myalloc.c:279-409 | `myrealloc` as written also leaves every allocated payload as it was on failure, and on success every payload but the reallocated one |
| MyAlloc.Allocator.CopyOverAsWritten | myalloc/myalloc.c:383-407 | the arena after the source's copy is `AsWrittenBytes`: first int read from the current arena, the two saved words, then bytes 20..min(nSpace, size) |
| MyAlloc.Allocator.CopyAsWritten | myalloc/myalloc.c:404-407 | the byte loop copies bytes 20 up to min(nSpace, size) from the old offset, reading the arena as it is |
| MyAlloc.AsWrittenCopiesArena | myalloc/myalloc.c:394-407 | when the new block lies below the old one, bytes 20 onwards of the new payload are those the arena holds after `myalloc`, not the caller's bytes |
| Scenarios.SimpleTest | myalloc/simpletest.c:55-72 | the call sequence yields payloads 4, 112, 320, reuse of 4, `myrealloc(b, 400)` at 4 with the 200 bytes 'B' at its start, and `checkMem() == 40000` |
| Scenarios.SimpleMove | myalloc/simpletest.c:70 | `myrealloc(b, 400)` as written merges `b` with both free neighbours, returns 4, and the new payload starts with the 200 bytes 'B' |
| Scenarios.SimpleMoveBytes | myalloc/myalloc.c:383-407 | on that arena the slots `myfree` and `myalloc` write miss the old payload bytes the copy reads, so the 'B's arrive |
| Scenarios.Allocate | myalloc/simpletest.c:16-29 | `allocate(size, c)`: the result of `myalloc`, with the requested bytes all set to `c`, and every payload allocated before kept |
| Scenarios.ShrinkAsWritten | myalloc/myalloc.c:174-177 | the source's `myrealloc(p, 40)` after a free 20-byte predecessor delivers 0 at payload byte 24, where the caller had stored 66 |
| Scenarios.ShrinkCorrected | myalloc/myalloc.c:279-409 | the corrected `myrealloc` on the same state delivers the 66 |
| Scenarios.CopyOverrun | myalloc/myalloc.c:404 | the copy bound `min(nSpace, size)` reads 76 bytes past the end of a 136-byte arena when the old block is last |
| Tree.SearchCorrect | multimap/array_implementation_of_tree_except_it_took_too_much_memory_and_I_am_sad_now.c:197-207 | in a search tree, the descent to 2i+1 or 2i+2 stops at a live slot iff the key is present; that slot holds the key and its values |
| Tree.Settle | multimap/array_implementation_of_tree_except_it_took_too_much_memory_and_I_am_sad_now.c:186-207 | writing the key where its search stops keeps the search-tree order and maps only that key to its new values |
| Tree.InOrderSorted | multimap/array_implementation_of_tree_except_it_took_too_much_memory_and_I_am_sad_now.c:319-341 | the in-order traversal of a search tree visits keys in ascending order |
| Tree.InOrderValues | multimap/array_implementation_of_tree_except_it_took_too_much_memory_and_I_am_sad_now.c:319-341 | the traversal yields each key's values exactly as its list holds them |
| Tree.CompleteMaxLeast | multimap/array_implementation_of_tree_except_it_took_too_much_memory_and_I_am_sad_now.c:118-145 | `findMaxI(i)` ≥ i, `findMaxI(i)+2` is a power of two, and it is the least such value |
| MultiMap.FindMaxI | multimap/array_implementation_of_tree_except_it_took_too_much_memory_and_I_am_sad_now.c:125-145 | the shift loop returns the least value ≥ index that is two less than a power of two |
| MultiMap.Grown | multimap/array_implementation_of_tree_except_it_took_too_much_memory_and_I_am_sad_now.c:153-168 | the grown array has slot j, keeps the old prefix, has size `findMaxI(j)+1` when j was past the end, and has vacant new slots |
| MultiMap.PlacedValid | multimap/array_implementation_of_tree_except_it_took_too_much_memory_and_I_am_sad_now.c:186-193 | creating the key at the first dead slot on its path keeps the array invariant and maps the key to no values |
| MultiMap.FoundItems | multimap/array_implementation_of_tree_except_it_took_too_much_memory_and_I_am_sad_now.c:181-207 | a returned node holds the key and the key's values; the contents change at most by adding the key; with no node, the key is absent and nothing changed |
| MultiMap.AppendValid | multimap/array_implementation_of_tree_except_it_took_too_much_memory_and_I_am_sad_now.c:271-280 | appending to the key's node keeps the invariant and appends to that key's values only |
| MultiMap.Scan | multimap/array_implementation_of_tree_except_it_took_too_much_memory_and_I_am_sad_now.c:303-311 | the scan finds the value iff it is in the list |
| MultiMap.MultiMap.constructor | multimap/array_implementation_of_tree_except_it_took_too_much_memory_and_I_am_sad_now.c:226-231 | `maxI` is −1 and the multimap is empty |
| MultiMap.MultiMap.AllocNode | multimap/array_implementation_of_tree_except_it_took_too_much_memory_and_I_am_sad_now.c:153-172 | slot `nodeI` ends valid; past the end, `maxI` becomes `findMaxI(nodeI)`, old slots keep their contents, and other new slots are invalid |
| MultiMap.MultiMap.FindNode | multimap/array_implementation_of_tree_except_it_took_too_much_memory_and_I_am_sad_now.c:181-208 | returns the live slot with the key, or creates the key at the first dead slot on its path when `create` is set or that slot is the root, or returns NULL; the invariant holds |
| MultiMap.MultiMap.AddValue | multimap/array_implementation_of_tree_except_it_took_too_much_memory_and_I_am_sad_now.c:257-281 | the key's values become the old values followed by the new value, and no other key changes |
| MultiMap.MultiMap.ContainsKey | multimap/array_implementation_of_tree_except_it_took_too_much_memory_and_I_am_sad_now.c:287-289 | nonzero iff the key is present or the map is empty; an empty map gains the key with no values |
| MultiMap.MultiMap.ContainsPair | multimap/array_implementation_of_tree_except_it_took_too_much_memory_and_I_am_sad_now.c:295-312 | nonzero iff the value is in the key's list; an empty map gains the key |
| MultiMap.MultiMap.Locate | multimap/array_implementation_of_tree_except_it_took_too_much_memory_and_I_am_sad_now.c:181-207 | the search without creation finds a slot iff the key is present, and that slot holds the key's values |
| MultiMap.MultiMap.HasKey | multimap/array_implementation_of_tree_except_it_took_too_much_memory_and_I_am_sad_now.c:284-289 | corrected `mm_contains_key`: true iff the key is present |
| MultiMap.MultiMap.HasPair | multimap/array_implementation_of_tree_except_it_took_too_much_memory_and_I_am_sad_now.c:292-312 | `mm_contains_pair` over a lookup that creates nothing: true iff the value is in the key's list |
| MultiMap.MultiMap.TraverseHelper | multimap/array_implementation_of_tree_except_it_took_too_much_memory_and_I_am_sad_now.c:319-341 | the subtree's pairs in order: left subtree, then the node's values, then right subtree |
| MultiMap.MultiMap.Traverse | multimap/array_implementation_of_tree_except_it_took_too_much_memory_and_I_am_sad_now.c:347-349 | the pairs come in non-decreasing key order, each key's pairs are contiguous, and each key's values come in insertion order, exactly as the map holds them |
| MapScenarios.FindMaxIFive | multimap/array_implementation_of_tree_except_it_took_too_much_memory_and_I_am_sad_now.c:118-124 | `findMaxI(5) == 6` |
| MapScenarios.EmptyLookupInserts | multimap/array_implementation_of_tree_except_it_took_too_much_memory_and_I_am_sad_now.c:186-194 | `mm_contains_key` on a new multimap answers yes, and the key is present afterwards |
| MapScenarios.EmptyLookupCorrected | multimap/array_implementation_of_tree_except_it_took_too_much_memory_and_I_am_sad_now.c:175-179 | the lookup without creation answers no on a new multimap and leaves it empty |
| MapScenarios.FilledQueries | multimap/array_implementation_of_tree_except_it_took_too_much_memory_and_I_am_sad_now.c:257-349 | after adding (5,1), (3,2), (8,3), (5,4): pair (5,4) is found and (5,2) and key 4 are not; the traversal gives 3→[2], 5→[1,4], 8→[3] in key order |

## Left out

- Host allocation: the `malloc` and `abort` of `init_myalloc` and the `free` of `close_myalloc` are not modelled. The constructor takes the arena size (≥ 28 and ≤ `INT_MAX`), the arena's address and its initial bytes as parameters.
- Diagnostics: the `fprintf` calls are left out. The `assert(checkMem() == MEMORY_SIZE)` lines become the `Valid()` postconditions together with `CheckMem`'s contract.
- MyAlloc.Allocator.Free: `abort` is modelled as an `aborted` result with nothing changed. The precondition asks that any pointer `isValid` accepts be the payload of an allocated block. So the false positives `isValid` admits (an interior address whose bytes happen to look like a matching tag pair) are not modelled.
- MyAlloc.Allocator.Alloc: requires `size ≥ 0`. For a negative size the source's `MAX` passes the size through unchanged; `Pool.ClampAsWrittenNegative` records this.
- MyAlloc.Allocator.Realloc: requires the old pointer to be the payload of an allocated block, because the source reads its tags and links before `myfree` validates it. On failure the free list keeps its membership but not its order: a merged successor is re-pushed at the front (`Pool.RollbackList`), and the link bytes of free nodes may differ.
- MyAlloc.Allocator.ReallocAsWritten: additionally requires that the copy loop stays inside the arena (`CopyInArena`), since reads past the arena end are undefined in C; `Scenarios.CopyOverrun` shows an input that breaks it.
- Platform layout: pointers are 8-byte little-endian values and `int` is 4-byte two's complement. Struct alignment and 32-bit layouts are not modelled.
- Multimap memory management: `malloc` in `init_multimap`, `free_multimap_values` and `clear_multimap` are not modelled. The array is a sequence, so the unchecked `realloc` result (line 159) is not modelled either. `clear_multimap` also leaves `maxI` stale after freeing the array (lines 251-252), so a later insertion would index a NULL array.
- Value lists: nothing in the source initialises `values`/`values_tail` of a new node (lines 163-170, 190-191), yet `mm_add_value` reads `values_tail` (line 275). The model gives new nodes empty lists, which is what the code evidently intends.
- Realloc garbage: slots that `realloc` adds hold indeterminate bytes; the model fills them with one fixed valid-looking node, so it is `alloc_mm_node`'s own loop that invalidates them.
- MultiMap.MultiMap.AddValue: requires that the slot where the key's search stops is at most 2^30−2, so that `1 << depth` in `findMaxI` and the index arithmetic stay within a 32-bit `int`.
- MultiMap.MultiMap.Traverse: the callback `f` of `mm_traverse` is replaced by a returned sequence of (key, value) pairs. `multimap.h` is not part of this model.

## Findings

| source | as written | input that shows it | evidently intended | confidence | as-written member | corrected member |
|---|---|---|---|---|---|---|
| myalloc/myalloc.c:174-177, 394-407 | `myrealloc` copies the old payload after `myalloc` has written split tags and remainder links into it | a 192-byte pool with blocks of payload 20 (free), 100 and 48 (allocated), byte 24 of the 100-byte payload set to 66, `myrealloc(p, 40)`: the new block gets 0 at byte 24 | the first min(old size, new size) bytes of the old payload arrive intact | high (not executed) | Scenarios.ShrinkAsWritten | Scenarios.ShrinkCorrected |
| myalloc/myalloc.c:404 | the copy loop runs to `min(nSpace, size)`, not the old size | a 136-byte pool with a free 100-byte block and an allocated 20-byte block after it, `myrealloc(p, 100)`: the loop reads 76 bytes past the arena end | copy min(old size, new size) bytes | high (not executed) | Scenarios.CopyOverrun | MyAlloc.Allocator.Realloc |
| myalloc/myalloc.c:167 | `MAX(size, sizeof(node) - sizeof(int))` compares an `int` with a `size_t`, so a negative size is not raised to 20 | `myalloc(-1)`: the clamp yields −1 | clamp every request to at least 20 | high (not executed) | Pool.ClampAsWrittenNegative | Pool.Clamp |
| multimap/array_implementation_of_tree_except_it_took_too_much_memory_and_I_am_sad_now.c:188 | `find_mm_node` creates the root even when `create_if_not_found` is 0 | `mm_contains_key(7)` on a new multimap returns nonzero and inserts 7 | lookups without create never insert, as the comment at lines 175-179 says | high (not executed) | MapScenarios.EmptyLookupInserts | MultiMap.MultiMap.HasKey |
