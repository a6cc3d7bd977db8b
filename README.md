# tralloc in Dafny

tralloc is a boundary-tag heap allocator:

- Every chunk of the heap has a header and a footer around its payload.
  - The header holds `size` and `in_use`.
  - The footer repeats `size`.
- While a chunk is free, the start of its payload holds the `parent`, `left` and `right` fields of a node in a binary search tree keyed by size.
- The root of that tree is `fake_root`, a permanent chunk of size 0.

`tralloc(size)`:

- rounds the request up to a word and to at least the node fields;
- takes the first large enough chunk on the path down the tree (`remove_chunk_by_size`), or grows the heap with `sbrk` when there is none;
- splits off the rest of the chunk as a new free chunk when the rest can hold a chunk of its own.

`trfree(ptr)`:

- merges the chunk with a free neighbour on either side;
  - the chunk before it is found through the footer just before the header, unless the chunk is `first_chunk`;
  - the chunk after it starts right after its footer, unless that address is `guard_addr`;
- puts the result back into the tree.

The model has four modules, one per file:

- `Layout` (layout.dfy):
  - the padded struct sizes, `ceil_size` and the six address converters;
  - the arithmetic of splitting and merging chunks.
- `FreeTree` (free_tree.dfy):
  - the free tree as a value `Tree`;
  - `Insert`, `FirstFit` and `Remove`, which are what `add_chunk`, `remove_chunk_by_size` and `remove_chunk` do to its shape, with their properties;
  - `Realizes`, which says that the node fields in memory spell out a given tree.
- `Heap` (heap.dfy):
  - the chunk sequence from `first_chunk` to `guard_addr` (the C code never stores it);
  - `WellFormed`: the chunks tile the heap and their boundary tags agree;
  - `NoAdjacentFree`: no two neighbouring chunks are both free;
  - lemmas on what growing, splitting and merging do to both.
- `Allocator` (allocator.dfy):
  - class `Allocator`: its fields are the globals of tralloc.c, plus memory as maps from address to header size, header flag, footer size and node fields;
  - at least one method per C function, with the steps of `tralloc`, `trfree` and `add_chunk` as helper methods;
  - lemmas that the class invariant `Valid` (the value-level `Inv`) is kept.

The invariant says:

- the sentinel is a size-0 chunk at the root of a search tree of distinct chunks that the node fields spell out;
- the chunks tile the heap from the end of the sentinel to the break;
- `first_chunk` and `guard_addr` name the two ends of the heap;
- the tree holds exactly the free chunks plus the sentinel;
- no two neighbours are both free.

`Tralloc` and `Trfree` keep it and state their effect on the headers, footers, globals and free tree:

- Tralloc names one of three successor states: `GrowState`, `SplitState` or `ClaimState`.
- Trfree states that its successor state satisfies the relation `Freed`.

## Model

| member | source | states |
|---|---|---|
| Layout.CeilSize | tralloc.c:248-251 | the result is a multiple of the offset, lies in [input, input + offset), and is the input itself when the input already is a multiple |
| Layout.CeilSizeLeast | tralloc.c:248-251 | no multiple of the offset that is at least the input is smaller than ceil_size's result, so it is the least such multiple |
| Layout.MakePads | tralloc.c:90-95 | each padded size is its struct size rounded up to a word: at least the struct size and less than one word more, and a word multiple |
| Layout.RequestSize | tralloc.c:106-108 | the size a request is served with is a positive word multiple, at least the request and at least node_pad |
| Layout.RequestSizeLeast | tralloc.c:106-108 | it is the least word multiple covering both the request and node_pad |
| Layout.HeaderToNode | tralloc.c:253 | a chunk's node fields start exactly header_pad after its header, so their address is at least header_pad |
| Layout.NodeToHeader | tralloc.c:255 | node_to_header inverts header_to_node |
| Layout.HeaderNodeRoundTrip | tralloc.c:253-255 | going from a header to its node fields and back with node_to_header returns the same header |
| Layout.HeaderToFooter | tralloc.c:254 | the footer sits `size` bytes after the node fields |
| Layout.NodeToFooter | tralloc.c:256 | node_to_footer agrees with header_to_footer of node_to_header |
| Layout.FooterToHeader | tralloc.c:257 | footer_to_header inverts header_to_footer for the size stored in the footer |
| Layout.FooterToNode | tralloc.c:258 | footer_to_node inverts node_to_footer and agrees with header_to_node of footer_to_header |
| Layout.ChunkEnd | tralloc.c:116 | the end of a chunk is its footer address plus footer_pad, where guard_addr is set and the next chunk starts |
| Layout.Remainder | tralloc.c:119-122 | when the split test holds, the remainder can hold the node fields, and size + footer_pad + header_pad + remainder is the found size |
| Layout.SplitConservesExtent | tralloc.c:119-128 | after a split the remainder ends where the found chunk ended, and its footer is where the found chunk's footer was |
| Layout.MergeConservesExtent | tralloc.c:143-144 | a merged chunk of size a + footer_pad + header_pad + b ends, and has its footer, where its second part did |
| FreeTree.Insert | tralloc.c:163-183 | reference definition of add_chunk on the tree: a new leaf at the end of the search path, ties sent left exactly when equals_alternator is set, which flips once per tie on the way back; its properties are the Insert lemmas below |
| FreeTree.InsertFlipsOncePerTie | tralloc.c:173-181 | add_chunk sends every tie on its path to the side equals_alternator named on entry, and the alternator ends flipped once per tie |
| FreeTree.InsertElems | tralloc.c:163-183 | insertion adds exactly the new chunk and its size and keeps the root |
| FreeTree.InsertDistinct | tralloc.c:163-183 | insertion of a chunk not yet in the tree keeps every chunk occurring once |
| FreeTree.InsertOrdered | tralloc.c:173-181 | insertion keeps search-tree order (left sizes at most the node's, right sizes at least) |
| FreeTree.InsertLeaf | tralloc.c:165-171 | the added chunk ends up as a leaf holding its own size |
| FreeTree.FirstFit | tralloc.c:185-194 | reference definition of remove_chunk_by_size's walk: go right past chunks smaller than the request, take the first that is large enough, NULL when the walk falls off |
| FreeTree.FirstFitFound | tralloc.c:185-194 | a chunk found by remove_chunk_by_size's walk is in the tree and at least as large as the request |
| FreeTree.FirstFitMisses | tralloc.c:185-194 | in a search tree the walk finds nothing exactly when every chunk is smaller than the request |
| FreeTree.FirstFitIsNotBestFit | tralloc.c:188-192 | a concrete search tree where the walk takes a 120 chunk for a request of 50 although an 80 chunk exists |
| FreeTree.Max | tralloc.c:236-240 | find_largest's stopping node: it exists and has no right child |
| FreeTree.Min | tralloc.c:242-246 | find_smallest's stopping node: it exists and has no left child |
| FreeTree.MaxProps | tralloc.c:236-240 | the node find_largest stops at is in the tree, has no right child, and holds the largest size; splicing it out removes just it and keeps order |
| FreeTree.MinProps | tralloc.c:242-246 | the node find_smallest stops at is in the tree, has no left child, and holds the smallest size; splicing it out removes just it and keeps order |
| FreeTree.DeleteRoot | tralloc.c:196-234 | reference definition of what remove_chunk leaves in place of the removed chunk: its only child, or, with two children, the left maximum when the flipped succ_pred_alternator is true and the right minimum otherwise |
| FreeTree.Remove | tralloc.c:196-234 | reference definition of remove_chunk on the whole tree: the removed chunk's subtree is replaced by DeleteRoot's, and a chunk not in the tree leaves it unchanged |
| FreeTree.DeleteRootProps | tralloc.c:202-226 | deleting a subtree's root removes exactly that chunk and keeps order; succ_pred_alternator flips exactly when the chunk had two children |
| FreeTree.RemoveProps | tralloc.c:196-227 | remove_chunk takes exactly the one chunk out, keeps distinctness and order, adds no size, keeps the root unless the root is removed, and flips succ_pred_alternator exactly in the two-children case |
| FreeTree.PredecessorRemoval | tralloc.c:204-206 | the predecessor replacement lies in the removed chunk's subtree, has at most one child, and removing it first splices it out of the left subtree without touching the alternator |
| FreeTree.SuccessorRemoval | tralloc.c:204-206 | the same for the successor, the smallest chunk of the right subtree |
| Allocator.ReplacementChosen | tralloc.c:204-206 | the replacement find_replacement picks lies below the removed chunk and has at most one child; removing it first leaves the removed chunk's subtree without its left maximum, or without its right minimum, as the alternator says |
| FreeTree.RealizesFrame | tralloc.c:143-144 | writes to memory outside the tree's chunks leave the tree spelled out as before |
| FreeTree.RealizesSplice | tralloc.c:215-225 | re-pointing the parent's slot and the child's parent field at each other spells out the tree with the chunk spliced out |
| FreeTree.RealizesTransplant | tralloc.c:207-214 | copying the removed chunk's node fields into the replacement, re-pointing the parent's slot and both children's parent fields spells out the tree with the replacement in its place |
| Allocator.Allocator.Init | tralloc.c:89-104 | the pads are the struct sizes rounded up to a word; the sentinel of size 0, marked not in use, with NULL parent and children is the whole free tree; the heap has no chunk yet and first_chunk and guard_addr are NULL |
| Allocator.Allocator.FindLargest | tralloc.c:236-240 | returns the chunk Max of the subtree whose root it is given |
| Allocator.Allocator.FindSmallest | tralloc.c:242-246 | returns the chunk Min of the subtree whose root it is given |
| Allocator.Allocator.FindReplacement | tralloc.c:229-234 | flips succ_pred_alternator, then returns the largest chunk of the left subtree when it is now true and the smallest of the right subtree otherwise |
| Allocator.Allocator.AddChunk | tralloc.c:163-183 | the node fields now spell out Insert's tree with the new chunk below the given parent; equals_alternator ends as Insert says; the chunk is marked free; a non-NULL root is returned unchanged; only node fields of the path's chunks and of the new chunk change |
| Allocator.Allocator.AddBelow | tralloc.c:173-181 | one descent step: the grown subtree hangs from the node's left or right slot and the node keeps its place |
| Allocator.Allocator.RemoveChunk | tralloc.c:196-227 | the tree and succ_pred_alternator become Remove's; the node fields still spell out a tree of distinct chunks; outside the removed chunk's subtree only the parent's slot changes |
| Allocator.Allocator.RemoveChunkBySize | tralloc.c:185-194 | returns FirstFit's chunk; when it is not NULL it is in the tree, is not the sentinel, is large enough, and only it has left the tree; on NULL nothing changes |
| Allocator.Allocator.Tralloc | tralloc.c:88-132 | keeps the invariant; the returned pointer is the chunk's header + header_pad; the chunk is in the heap, in use and at least RequestSize; it comes from the tree exactly when FirstFit finds one; it is split or claimed as is by the split test, and on a miss it is a new chunk at the old break |
| Allocator.Allocator.TakeFromBreak | tralloc.c:112-118 | a new chunk of the given size at the old break with both tags written and in use; the break and guard_addr move to its end; first_chunk is set only if it was NULL |
| Allocator.Allocator.SplitFound | tralloc.c:119-129 | found keeps the first s bytes and both tags, the remainder right after it becomes a free chunk with both tags and is in the tree as Insert places it, and the chunk sequence gains it right after found |
| Allocator.Allocator.AddRemainder | tralloc.c:120-125 | the remainder's tags are written at found + header_pad + s + footer_pad with the remaining size, it is marked free, and it is inserted from the root |
| Allocator.Allocator.TagDividend | tralloc.c:121-124 | writes the remainder's header size, free flag and footer at the end of the first s bytes of found |
| Allocator.Allocator.AddFromRoot | tralloc.c:125 | add_chunk from fake_root: the tree becomes Insert's, the chunk is free and the sentinel stays the root |
| Allocator.Allocator.ResizeFound | tralloc.c:127-130 | found's header and footer both hold s and it is marked in use, and the remainder follows it in the chunk sequence |
| Allocator.Allocator.ClaimFound | tralloc.c:130 | without a split only the in-use flag of found changes |
| Allocator.Allocator.Trfree | tralloc.c:134-161 | keeps the invariant (so no two neighbours are free afterwards) and relates old and new state by Freed: the freed chunk, merged with whichever neighbours are free, becomes one free chunk spanning them with agreeing tags, put in the tree by add_chunk after the neighbours have left it; nothing outside that span, the break, the sentinel or the ends of the heap changes |
| Allocator.Allocator.MergeBefore | tralloc.c:137-148 | unless the chunk is first_chunk, reads the previous chunk through the footer before it; merges with it exactly when it is free; returns the merged chunk's header |
| Allocator.Allocator.MergeWithPrevious | tralloc.c:140-147 | the free previous chunk leaves the tree, grows by footer_pad + header_pad + the chunk's size so that it ends where the chunk ended, and its footer holds the new size |
| Allocator.Allocator.MergeAfter | tralloc.c:149-158 | unless the merged chunk ends at guard_addr, merges it with the chunk after it exactly when that one is free |
| Allocator.Allocator.MergeWithNext | tralloc.c:152-157 | the free next chunk leaves the tree and the merged chunk grows over it, ending where it ended, with its footer holding the new size |
| Allocator.Allocator.Release | tralloc.c:159-160 | the merged chunk is marked free and inserted from the root |
| Allocator.GrowState | tralloc.c:112-118 | reference definition of the sbrk path: a chunk of exactly the request at the old break, both tags written, in use, the break and guard_addr past it, first_chunk set only on an empty heap |
| Allocator.Unlinked | tralloc.c:111 | reference definition of the state once remove_chunk_by_size has found a chunk: the tree and succ_pred_alternator are Remove's |
| Allocator.ClaimState | tralloc.c:130 | reference definition of the path without a split: only the found chunk's in-use flag is set |
| Allocator.SplitState | tralloc.c:119-130 | reference definition of the split path: the found chunk keeps the request and is in use, the dividend right after it gets the rest with both tags, is free, follows it in the heap and is added to the tree by Insert |
| Allocator.GrowStep | tralloc.c:112-118 | the sbrk path keeps the invariant, and the new chunk at the old break is in the heap, in use, with exactly the requested size |
| Allocator.SplitStep | tralloc.c:119-130 | the split path keeps the invariant, and found stays in the heap, in use, with exactly s bytes |
| Allocator.SplitTreeStep | tralloc.c:119-125 | removing found and inserting the remainder leaves a search tree of distinct chunks holding exactly the free chunks and the sentinel |
| Allocator.SplitHeap | tralloc.c:119-129 | the split keeps the heap tiled with agreeing tags, keeps no two neighbours free, and keeps the sentinel and the ends of the heap |
| Allocator.SplitFree | tralloc.c:119-130 | the split trades found for the remainder in the set of free chunks |
| Allocator.SplitPrepared | tralloc.c:119-124 | before the split, the remainder's header is neither NULL nor a tree node and writing its size leaves the tree spelled out |
| Allocator.ClaimStep | tralloc.c:130 | the path without a split keeps the invariant, and found is in the heap |
| Allocator.FreeTests | tralloc.c:137-152 | inside the invariant trfree's tests mean what they should: the chunk is first_chunk exactly when it has no predecessor, the footer before it names its predecessor, it ends at guard_addr exactly when it has no successor, and a free neighbour is in the tree |
| Allocator.InvSurroundings | tralloc.c:137-151 | inside the invariant every chunk's tag and neighbours are in place |
| Allocator.FirstPhaseMerged | tralloc.c:140-147 | merging the free previous chunk over the freed one is trfree's first phase |
| Allocator.FirstPhaseSkipped | tralloc.c:137-148 | when the previous chunk is in use or missing, the first phase changes nothing |
| Allocator.SecondPhaseMerged | tralloc.c:152-157 | growing over the free next chunk is trfree's second phase |
| Allocator.SecondPhaseSkipped | tralloc.c:149-158 | when the next chunk is in use or missing, the second phase changes nothing |
| Allocator.AfterFirstPhase | tralloc.c:146-151 | after the first phase the second phase's tests read as they did before: the same next chunk, equally free, equally in the tree, and the same guard_addr test |
| Allocator.PhasesCombine | tralloc.c:137-158 | the two phases together merge the run from MergeStart to MergeEnd into one chunk spanning it, and leave the tree as Unmerged |
| Allocator.PhasesFreed | tralloc.c:134-160 | the two phases and the release together are Freed |
| Allocator.UnmergedProps | tralloc.c:140-157 | removing the merged neighbours takes exactly those chunks out of the tree and keeps it a search tree of distinct chunks |
| Allocator.FreeStep | tralloc.c:134-161 | trfree keeps the invariant; the free set loses the merged neighbours and gains the merged chunk; the merged chunk covers the freed one |
| Allocator.FreeHeapStep | tralloc.c:137-159 | the merge keeps the heap tiled with agreeing tags and keeps no two neighbours free |
| Allocator.FreeEnds | tralloc.c:134-161 | the sentinel keeps size 0, first_chunk and guard_addr still name the ends of the heap, and the merged chunk starts at or before the freed chunk and ends at or after it |
| Allocator.FreeTreeStep | tralloc.c:140-160 | after the removals and the insertion the tree is a search tree of distinct chunks holding exactly the free chunks and the sentinel |
| Heap.Neighbours | tralloc.c:137-151 | in a well-formed heap a chunk starts the heap exactly when it is the first; it ends at the top exactly when it is the last; footer_to_header of the footer just before it is its predecessor; the next chunk starts at its end |
| Heap.Grow | tralloc.c:112-118 | appending a fresh in-use chunk at the top keeps the heap well formed, the free set and the no-adjacent-free rule |
| Heap.Split | tralloc.c:119-129 | cutting a free chunk into an in-use first part and a free remainder keeps the heap well formed and the no-adjacent-free rule, and trades the chunk for the remainder in the free set |
| Heap.SplitChunk | tralloc.c:119-129 | Split stated with the tag writes tralloc performs |
| Heap.Claim | tralloc.c:130 | marking a chunk in use keeps the heap well formed and the rule, and takes it out of the free set |
| Heap.CoalescedSize | tralloc.c:143-156 | the chunk from merging the run ends where the run ended, and its size is large enough for the node fields and a word multiple |
| Heap.Coalesce | tralloc.c:137-159 | merging the freed chunk with its free neighbours into one free chunk keeps the heap well formed, keeps no two neighbours free, and trades the merged chunks for the new one in the free set |

## Left out

- `traudit`, `fprint_tree` and `fprint_depth_padding` (tralloc.c:260-323) only print, so they are not modelled.
- `sbrk` is the field `brk` moving up; the model does not model `sbrk` failing, because tralloc.c never checks its result.
- The struct sizes are parameters of the constructor (positive byte counts, rounded up by `CeilSize`); the C `sizeof` values and struct layout are not modelled.
- Memory is four separate maps rather than overlapping bytes. They are header size, header flag, footer size and node fields, keyed by header or footer address. The model therefore does not show that node fields and payload share bytes, nor the contents of in-use payloads. The allocator never reads those payloads outside `traudit`.
- The lazy set-up of the globals on the first `tralloc` call (tralloc.c:89-104) is the constructor `Init`, and is not repeated inside `Tralloc`.
- Misuse is excluded by preconditions: freeing a pointer that is not the payload of an in-use chunk, and double free. The C code does not check for either.
- `size_t` wrap-around in `header_pad + size + footer_pad` and in the address arithmetic is not modelled: sizes and addresses are unbounded naturals.
- Allocator.Allocator.Trfree: the footer map is pinned outside the merged chunk and at its final footer only. The stale footers left inside the merged chunk are not stated. Those are the freed chunk's old footer and the one the first merge writes. Each phase method states its footer write exactly.
- Allocator.Allocator.Tralloc: its returned header and hit flag are ghost outputs that name the chunk used; the C function returns only the payload pointer.
- Allocator.Allocator.Tralloc: when a free chunk is reused, the node fields of chunks outside the free tree, the returned chunk's among them, are constrained only by `Valid`. remove_chunk can write the removed chunk's child pointer when the replacement is its own child, so the C code does not keep them either; the sbrk path states `links` unchanged.
- Allocator.Allocator.Trfree: the node fields of chunks outside the free tree are constrained only by `Valid`; only the free tree's node fields are pinned, through `Realizes`.
