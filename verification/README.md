# Data structures and memory of a small ARM kernel, verified

The repository is a hobby kernel for the Raspberry Pi. This project models the parts of it that
carry the most state and branching, in the form the C code has (pointer writes, loops, buffers
updated in place), and proves what they are for.

| file | component |
|---|---|
| `RbTree.dfy` | red-black trees: nodes in memory, the tree they form, contexts with a hole, shape and maximum invariants |
| `RbBalance.dfy`, `RbInsert.dfy`, `RbAdd.dfy` | rotation, insert rebalancing, `rb_link_node`, `rb_add`, `rb_find_add`, `rb_find`, `rb_find_first` |
| `RbEraseColor.dfy`, `RbPropagate.dfy`, `RbErase.dfy` | erase: splice, maximum propagation, rebalancing |
| `RbWalk.dfy`, `RbPostorder.dfy` | in-order and postorder stepping, `rb_for_each`, `rb_replace_node` |
| `Elements.dfy`, `Qsort.dfy` | byte buffers seen as elements; the non-recursive quicksort |
| `Perf.dfy` | `bsearch` and the hashed table of performance events |
| `HeapRegion.dfy`, `HeapMemory.dfy`, `KernelHeap.dfy` | the kernel heap: regions as chunk lists, their headers and pointer array in memory, `alloc`, `cull`, `change` |
| `Bitmap.dfy`, `PageMap.dfy` | the page reservation bitmap |
| `BlockMap.dfy`, `Ext2.dfy` | the ext2 block map and the file read |
| `Spinlock.dfy` | the ticket spinlock, over all interleavings |
| `Crc7.dfy` | the table-driven CRC7 of SD commands |

How to read the main results:

- **Red-black tree.** `RbTree.Repr` says that the links of a graph of mutable nodes spell a given
  tree, parent links included. Every operation is proved against the in-order sequence of that
  tree, and keeps it red-black. A context (`Ctx`) is the tree around a hole; the climbing loops
  move the hole up, and their invariants are statements about the context. The packed
  parent/colour word is two fields. Left and right branches of the C code are mirror images and
  are one body here, with the side as a parameter.
- **Quicksort.** The buffer is an array of bytes. Partitioning, the explicit stack and the insertion
  pass are proved on whole elements, and the bytewise swap and rotation are proved to act on whole
  elements.
- **Heap.** A region is a list of chunks. `Tiled` says they fill the region without gap or overlap,
  `Sound` that the accounting is right, no two free neighbours remain, and headers, live payloads and
  the chunk array do not overlap; `Blocks` is the list of live blocks. In memory (`HeapMemory`) the
  list is a pointer array and headers at addresses, and a store over part of a header destroys it.
  What alloc and cull do is proved for single calls and for runs.
- **Page map.** The bitmap is exactly the kernel's pages plus the outstanding reservations.
- **ext2.** Looking up and replacing a block pointer are related for every block number, including
  the three at which the replacement goes wrong.
- **Spinlock.** A state machine over single accesses to the lock word, with an abstract queue.
- **CRC7.** The reference is polynomial long division on bit strings.

Several statements are exact conditions for code that does not always meet its purpose:

- culling a block between two free chunks breaks the tiling (`kernel/src/memory/malloc.c`, line 604,
  uses the freed pointer after the left merge has moved the chunk's start): `HeapRegion.CullTiled`,
  `HeapRegion.TwoSidedBreaks`; a later alloc may then write a header over the chunk array:
  `HeapRegion.CarveSound`, `HeapRegion.RoomNeeded`;
- a region made for a request may be too small for it, and `alloc` then never returns:
  `KernelHeap.RetryNever`, `KernelHeap.RetryFails`;
- an alloc size near 2^31 is truncated to a negative int: `HeapRegion.CarveTiled`;
- `reserve` cannot see that `find_free` failed, and then marks the pages from 0 on:
  `PageMap.Pages.Reserve` (`WildMark`), `PageMap.Pages.WrappedValid`;
- `set_disk_block_number` takes the wrong branch at the first block of each indirect range:
  `BlockMap.SetPathExact`, `BlockMap.SetTakesEffect`, `BlockMap.RangeStartLost`;
- the length that `read_inode_filedata` returns: `Ext2.ReadLengthExact`;
- offsets in quicksort and bsearch are 32-bit products: `Qsort.SentinelExact`,
  `Qsort.ThresholdWraps`, `Perf.SearchExact`, `Perf.OffsetWraps`; the comparison of event hashes
  needs their bound: `Perf.PerfCmpNeedsBound`;
- 65536 outstanding tickets look like none, and two threads get the lock: `Spinlock.TooManyTickets`.

## Model

| member | source | states |
|---|---|---|
| `RbTree.PlugRb` | kernel/src/stdlib/rbtree.c:178-184 | a subtree of the black height and root colour its surroundings expect makes the whole tree red-black |
| `RbTree.UnplugRb` | kernel/src/stdlib/rbtree.c:178-184 | conversely, around any node a red-black tree splits into a red-black subtree and surroundings that accept it |
| `RbTree.RbMeaning` | kernel/src/stdlib/rbtree.c:178-184 | the recursive invariant says that no red node has a red child and that all paths down have the same number of black nodes |
| `RbTree.PlugAug` | kernel/include/stdlib/rbtree.h:369-380 | all maxima of a tree are right exactly when those of a subtree and of its surroundings are |
| `RbTree.AugIsMax` | kernel/include/stdlib/rbtree.h:369-380 | locally computed maxima are the maxima of whole subtrees: an upper bound that is attained |
| `RbTree.FieldsStored` | kernel/include/stdlib/rbtree.h:347-361 | the augmented fields recorded for a tree are exactly those in memory |
| `RbTree.LocatedPlug` | kernel/include/stdlib/rbtree.h:62-92 | splitting a tree in memory at any link, parent links included, loses and adds nothing |
| `RbTree.InorderDistinct` | kernel/src/stdlib/rbtree.c:369-399 | a tree in memory has no node twice in its order |
| `RbBalance.ComputeMax` | kernel/include/stdlib/rbtree.h:383-401 | the augmented field becomes the maximum of the node's value and its children's fields; it reports true exactly when asked to stop early and nothing changed |
| `RbBalance.AugmentRotate` | kernel/include/stdlib/rbtree.h:354-361 | the upper node takes over the old maximum, the lower one is recomputed |
| `RbBalance.ChangeChild` | kernel/include/stdlib/rbtree.h:62-73 | the path from the root that ended in the old node now ends in the new one, and nothing else on it changed |
| `RbBalance.RotateSetParents` | kernel/src/stdlib/rbtree.c:23-31 | the new node has the old one's owner, colour and link from above; the old one hangs below it in the given colour |
| `RbBalance.RotateUp` | kernel/src/stdlib/rbtree.c:197-203 | memory holds exactly the rotated tree, with inner subtree, colours and augmented fields as the rotation prescribes |
| `RbBalance.RotateInorder` | kernel/src/stdlib/rbtree.c:191-195 | a rotation keeps the order of the nodes |
| `RbBalance.RotateAug` | kernel/include/stdlib/rbtree.h:354-361 | the two assignments of the rotate callback make all maxima right again |
| `RbInsert.InsertFlip` | kernel/src/stdlib/rbtree.c:66-86 | red uncle: the same contents with the problem moved up to a red grandparent, black heights intact |
| `RbInsert.RotateLower` | kernel/src/stdlib/rbtree.c:103-113 | rotation at the parent: which subtree ends where, with colour and maximum |
| `RbInsert.InsertOuter` | kernel/src/stdlib/rbtree.c:115-132 | black uncle, outer node: one rotation ends with a red-black tree of the same contents |
| `RbInsert.InsertInner` | kernel/src/stdlib/rbtree.c:88-132 | black uncle, inner node: two rotations end with a red-black tree of the same contents |
| `RbInsert.InsertColor` | kernel/src/stdlib/rbtree.c:33-169 | from a red node that may have a red parent, the loop ends with a red-black tree in memory of the same nodes in the same order; right maxima stay right |
| `RbAdd.LinkNode` | kernel/include/stdlib/rbtree.h:86-92 | the empty link now holds exactly one red leaf |
| `RbAdd.LinkAndBalance` | kernel/include/stdlib/rbtree.h:228-230 | link and rebalance insert the node at one position of the in-order sequence, leave a valid tree, and change no augmented field |
| `RbAdd.FindSlot` | kernel/include/stdlib/rbtree.h:213-228 | the descent ends at the empty link after all nodes not greater than the new one and before all greater ones |
| `RbAdd.Add` | kernel/include/stdlib/rbtree.h:213-230 | for every strict weak order: a valid, sorted tree, the old sequence with the new node inserted after all nodes not greater than it; no augmented field changes |
| `RbAdd.FindAdd` | kernel/include/stdlib/rbtree.h:232-255 | an equal node and an untouched tree, or null and the node inserted between the smaller and the greater ones |
| `RbAdd.Find` | kernel/include/stdlib/rbtree.h:257-275 | a node comparing equal, or null exactly when there is none |
| `RbAdd.FindFirst` | kernel/include/stdlib/rbtree.h:277-297 | the first in order of the nodes comparing equal, or null when there is none |
| `RbWalk.Extreme` | kernel/src/stdlib/rbtree.c:430-453 | rb_first and rb_last are the ends of the in-order sequence |
| `RbWalk.Step` | kernel/src/stdlib/rbtree.c:369-427 | rb_next and rb_prev are the neighbours in the in-order sequence, null at its ends and for a node whose parent and colour word is its own address |
| `RbWalk.NotCleared` | kernel/include/stdlib/rbtree.h:33-36 | no node of a tree looks cleared |
| `RbWalk.Next` | kernel/src/stdlib/rbtree.c:369-398 | rb_next of the k-th node is the next one |
| `RbWalk.Prev` | kernel/src/stdlib/rbtree.c:401-427 | rb_prev of the k-th node is the one before, so it undoes rb_next |
| `RbWalk.VisitAll` | kernel/src/stdlib/rbtree.c:369-440 | rb_first and repeated rb_next visit every node once, in order |
| `RbWalk.ChildOrder` | kernel/src/stdlib/rbtree.c:369-440 | what hangs to the left of a node comes before it in that order, what hangs to the right after it |
| `RbWalk.NextMatch` | kernel/include/stdlib/rbtree.h:299-307 | the next node if it still compares equal, else null |
| `RbWalk.ForEach` | kernel/include/stdlib/rbtree.h:277-322 | rb_for_each yields exactly the nodes comparing equal to the key, in order |
| `RbPostorder.LeftDeepest` | kernel/src/stdlib/rbtree.c:456-466 | the first node of the subtree in postorder |
| `RbPostorder.NextPostorder` | kernel/src/stdlib/rbtree.c:477-493 | the next node in postorder, null after the last |
| `RbPostorder.VisitPostorder` | kernel/src/stdlib/rbtree.c:468-493 | rb_first_postorder and repeated rb_next_postorder visit every node once |
| `RbPostorder.ChildrenFirst` | kernel/src/stdlib/rbtree.c:484-492 | in that order a node comes after its children |
| `RbPostorder.LeftBeforeRight` | kernel/src/stdlib/rbtree.c:484-492 | and the left child before the right one |
| `RbPostorder.ReplaceNode` | kernel/src/stdlib/rbtree.c:496-510 | the replacement stands where the victim stood, in its colour; the tree stays valid, no other node moves and no augmented field changes |
| `RbEraseColor.RedSibling` | kernel/src/stdlib/rbtree.c:187-205 | case 1 turns the problem into one with a black sibling and a red parent, one black node short as before |
| `RbEraseColor.FlippedShape` | kernel/src/stdlib/rbtree.c:225-235 | case 2: the subtree of the parent is balanced, and short by one only if the parent was black |
| `RbEraseColor.LiftSibling` | kernel/src/stdlib/rbtree.c:275-296 | case 4: a rotation repairs the tree, same contents, right maxima |
| `RbEraseColor.LiftInner` | kernel/src/stdlib/rbtree.c:237-296 | cases 3 and 4 together repair the tree |
| `RbEraseColor.BlackSibling` | kernel/src/stdlib/rbtree.c:206-235 | an iteration repairs the tree, or moves up with the loop invariant: black and one black node short |
| `RbEraseColor.EraseColor` | kernel/src/stdlib/rbtree.c:171-352 | the loop terminates with a red-black tree in memory of the same nodes in the same order; right maxima stay right |
| `RbPropagate.RefreshAug` | kernel/include/stdlib/rbtree.h:337-346 | stopping at the first unchanged maximum still leaves all maxima right |
| `RbPropagate.RefreshRb` | kernel/include/stdlib/rbtree.h:337-346 | propagation does not affect the colours |
| `RbPropagate.Propagate` | kernel/include/stdlib/rbtree.h:337-346 | the loop writes exactly the refreshed maxima from a node up to the stop node |
| `RbErase.SpliceOne` | kernel/include/stdlib/rbtree.h:108-131 | at most one child: the node is gone from the sequence; the tree is red-black, or one black node short below the returned node |
| `RbErase.FindSuccessor` | kernel/include/stdlib/rbtree.h:133-169 | the successor is leftmost below the right child, with its parent |
| `RbErase.Detach` | kernel/include/stdlib/rbtree.h:146-177 | the successor owns the right subtree without itself, whose maxima are refreshed |
| `RbErase.Attach` | kernel/include/stdlib/rbtree.h:179-197 | the successor takes over the left subtree, owner and colour; what is to be rebalanced is returned |
| `RbErase.SpliceTwo` | kernel/include/stdlib/rbtree.h:132-197 | two children: as in `SpliceOne` |
| `RbErase.Splice` | kernel/include/stdlib/rbtree.h:99-199 | exactly the node leaves the sequence and the node set; right maxima stay right; a shortage of one black node is reported |
| `RbErase.Erase` | kernel/src/stdlib/rbtree.c:360-366 | from any valid tree, any node: a valid tree whose in-order sequence is the old one without exactly that node; with the max callbacks right maxima stay right, with the dummy ones no augmented field changes |
| `Elements.Swap` | kernel/src/stdlib/qsort.c:3-12 | the byte loop exchanges two whole elements |
| `Elements.Rotate` | kernel/src/stdlib/qsort.c:127-135 | the byte loops rotate whole elements |
| `Elements.ViewAt` | kernel/src/stdlib/qsort.c:41-41 | byte b of element i is byte i * size + b of the buffer |
| `Qsort.OffsetExact` | kernel/src/stdlib/qsort.c:41-41 | the 32-bit product is the element's offset exactly when that is below 2^32 |
| `Qsort.SentinelExact` | kernel/src/stdlib/qsort.c:104-113 | the end pointer is right and the search for the sentinel looks at exactly the first MAX_THRESH + 1 elements, or all of fewer, exactly when the sizes fit 32 bits |
| `Qsort.ThresholdWraps` | kernel/src/stdlib/qsort.c:35-35 | with three elements of 2^30 bytes the threshold is 0 and no sentinel is looked for |
| `Qsort.SmallExact` | kernel/src/stdlib/qsort.c:87-92 | the 32-bit comparison of a part with the threshold tells whether the part is small |
| `Qsort.MedianOfThree` | kernel/src/stdlib/qsort.c:50-60 | first, middle and last element end in order |
| `Qsort.ScanUp` | kernel/src/stdlib/qsort.c:66-67 | the unbounded scan stays inside the range and stops at an element not before the pivot |
| `Qsort.ScanDown` | kernel/src/stdlib/qsort.c:69-70 | likewise downwards |
| `Qsort.Partition` | kernel/src/stdlib/qsort.c:50-85 | the range is rearranged so that everything up to `right` is at most a pivot value and everything from `left` at least; both parts are smaller than the range |
| `Qsort.PartitionKeeps` | kernel/src/stdlib/qsort.c:47-101 | the pending ranges stay disjoint, separated from the rest, and responsible for every far pair out of order |
| `Qsort.DropSmall` | kernel/src/stdlib/qsort.c:87-93 | a range within the threshold may be dropped |
| `Qsort.StackBound` | kernel/src/stdlib/qsort.c:21-24 | pushing the larger part keeps the stack within 30 ranges of its 32 entries, for any length below 2^32 |
| `Qsort.NextRange` | kernel/src/stdlib/qsort.c:87-100 | the next range is chosen within the stack, the loop invariant holds and the work left decreases |
| `Qsort.SortFar` | kernel/src/stdlib/qsort.c:39-102 | with 32-bit offsets that fit: a rearrangement in which all pairs further apart than the threshold are in order |
| `Qsort.FrontMin` | kernel/src/stdlib/qsort.c:104-116 | the minimum then lies among the first MAX_THRESH + 1 elements |
| `Qsort.PlaceSentinel` | kernel/src/stdlib/qsort.c:106-116 | the minimum of all ends in front |
| `Qsort.FindPlace` | kernel/src/stdlib/qsort.c:120-125 | the scan without lower bound never leaves the array and finds the place of the element |
| `Qsort.InsertionPass` | kernel/src/stdlib/qsort.c:118-138 | a sorted rearrangement |
| `Qsort.Quicksort` | kernel/src/stdlib/qsort.c:26-139 | for every length and element size whose 32-bit offsets do not wrap and every total preorder: no element compares below an earlier one, and the elements are a permutation of the input |
| `Perf.MidpointExact` | kernel/src/stdlib/bsearch.c:4-30 | the midpoint lies in the interval exactly when the sum does not wrap, and then both halves are at most half as long |
| `Perf.SearchExact` | kernel/src/stdlib/bsearch.c:14-17 | all midpoints lie in their interval and all element offsets are right exactly when there are at most 2^31 elements and the last offset is below 2^32 |
| `Perf.OffsetWraps` | kernel/src/stdlib/bsearch.c:17-17 | with 16-byte elements, element 2^28 is looked up at offset 0 |
| `Perf.TableFits` | kernel/include/perf/perf.h:10-14 | tables of up to 2^28 events, and no larger ones, can be sorted and searched |
| `Perf.Bsearch` | kernel/src/stdlib/bsearch.c:4-30 | on every searchable table: an element comparing equal, or nothing exactly when there is none |
| `Perf.PolyClosed` | kernel/include/perf/perf.h:18-22 | the running value is 5381 * 33^n plus the sum of each byte times its power of 33 |
| `Perf.PerfHash` | kernel/include/perf/perf.h:16-24 | the loop computes that sum modulo 2^64 and then INT_MAX |
| `Perf.LastByteExact` | kernel/include/perf/perf.h:16-24 | names that differ in the last byte only collide exactly when the value wraps at 2^64 between them and the bytes differ by 4 |
| `Perf.PerfCmpExact` | kernel/include/perf/perf.h:26-31 | with hashes below INT_MAX the subtraction does not wrap |
| `Perf.PerfCmpNeedsBound` | kernel/include/perf/perf.h:26-31 | without that bound the comparison is not transitive |
| `Perf.HashRoundTrip` | kernel/include/perf/perf.h:10-14 | the stored hash reads back from bytes 12 to 15, and all other bytes of the entry are untouched |
| `Perf.HashedPreorder` | kernel/include/perf/perf.h:26-31 | on a hashed table the comparison is a total preorder |
| `Perf.HashEvents` | kernel/src/perf/perf.c:18-20 | every entry gets its name's hash |
| `Perf.HashAllKeeps` | kernel/src/perf/perf.c:18-20 | hashing changes the hash field of each entry and nothing else |
| `Perf.InitEvents` | kernel/src/perf/perf.c:13-23 | the table holds the hashed entries, each once, sorted by hash |
| `Perf.PerfLookup` | kernel/include/perf/perf.h:33-44 | non-null exactly when some entry has the name's hash, and then such an entry |
| `HeapRegion.NewRegionTiled` | kernel/src/memory/malloc.c:172-217 | a new region is tiled |
| `HeapRegion.NewRegionSound` | kernel/src/memory/malloc.c:172-217 | a new region's accounting is right |
| `HeapRegion.CarveTiled` | kernel/src/memory/malloc.c:381-437 | carving keeps the tiling exactly when the needed size is below 2^31 |
| `HeapRegion.CarveSound` | kernel/src/memory/malloc.c:381-437 | carving keeps sizes and slots adding up, no two open neighbours, and headers, live payloads and chunk array disjoint, exactly when there is room below the array's header |
| `HeapRegion.TiledRoom` | kernel/src/memory/malloc.c:381-381 | in a tiled region a request that passes the size test has room exactly when it was not truncated |
| `HeapRegion.SoundApart` | kernel/src/memory/malloc.c:402-411 | even where the tiling is lost, headers, live payloads and the chunk array are disjoint |
| `HeapRegion.RoomNeeded` | kernel/src/memory/malloc.c:396-430 | a run of four calls after which a request passes the size test and the new header lies over the chunk array |
| `HeapRegion.CarveBlocks` | kernel/src/memory/malloc.c:402-439 | carving adds exactly the new block to the live blocks, behind all others |
| `HeapRegion.MergeTiled` | kernel/src/memory/malloc.c:575-593 | a merge keeps the tiling exactly when it is given the left chunk's address |
| `HeapRegion.CullTiled` | kernel/src/memory/malloc.c:563-623 | cull as written keeps the tiling exactly when one neighbour is reserved; with the merged chunk's address, always |
| `HeapRegion.CullSound` | kernel/src/memory/malloc.c:563-623 | cull as written keeps the accounting, leaves no two open neighbours, and keeps headers, live payloads and chunk array disjoint |
| `HeapRegion.CullBlocks` | kernel/src/memory/malloc.c:563-623 | cull removes exactly one block from the live blocks and changes no other |
| `HeapRegion.TiledOrder` | kernel/src/memory/malloc.c:402-411 | in a tiled region, chunks with their headers are disjoint and end before the chunk array's header |
| `HeapRegion.TiledCovers` | kernel/src/memory/malloc.c:178-199 | every byte of a tiled region belongs to a chunk |
| `HeapRegion.RunSound` | kernel/src/memory/malloc.c:367-626 | over every run of alloc and cull, as written, in which each request finds room, the region stays sound |
| `HeapRegion.RunTiled` | kernel/src/memory/malloc.c:367-626 | over every run without two-sided merges, or with the intended address, the chunks tile the region and every request finds room |
| `HeapRegion.AllCulled` | kernel/src/memory/malloc.c:555-623 | once all blocks are culled, in any order, three chunks and the original free size are left, as written, if each request found room |
| `HeapRegion.AllCulledRestores` | kernel/src/memory/malloc.c:555-623 | with the intended address the region is then exactly as created |
| `HeapRegion.TwoSidedBreaks` | kernel/src/memory/malloc.c:597-622 | two allocs and two culls after which the tail extends past the region |
| `HeapMemory.DropSlot` | kernel/src/memory/malloc.c:585-588 | the memmove and the shifted base delete exactly one entry of the chunk array |
| `HeapMemory.AddSlot` | kernel/src/memory/malloc.c:415-419 | the memmove gains a last slot and keeps the entries |
| `HeapMemory.CarveHolds` | kernel/src/memory/malloc.c:415-427 | where there is room, slots and headers spell the carved chunk list: no store of alloc hits a header still needed |
| `HeapMemory.MergeHolds` | kernel/src/memory/malloc.c:585-593 | slots and headers spell the merged chunk list, for any start inside the two chunks |
| `HeapMemory.RegionBlock.constructor` | kernel/src/memory/malloc.c:172-217 | memory holds the new region: three headers and three slots |
| `HeapMemory.RegionBlock.Take` | kernel/src/memory/malloc.c:396-437 | the memmove of the pointer array and the header stores leave memory holding the carved region; the old tail's address is returned |
| `HeapMemory.RegionBlock.Merge` | kernel/src/memory/malloc.c:601-622 | the memmove, the shifted base and the header stores leave memory holding the merged region |
| `HeapMemory.RegionBlock.Free` | kernel/src/memory/malloc.c:564-565 | the flag and the used size change, and no other header |
| `HeapMemory.RegionBlock.Release` | kernel/src/memory/malloc.c:563-623 | memory holds the region after cull, as written |
| `KernelHeap.RegionSize` | kernel/src/memory/malloc.c:446-446 | the least multiple of the alignment above the request and the bookkeeping |
| `KernelHeap.RetryFits` | kernel/src/memory/malloc.c:444-449 | the new region's tail has the request and the bytes gained by rounding, so it holds the request exactly when the remainder of request and bookkeeping plus the cost of a slot is below the alignment |
| `KernelHeap.RetryNever` | kernel/src/memory/malloc.c:444-449 | if no region fits, adding regions for the request leaves that so, however many, exactly when the first one does not hold it |
| `KernelHeap.RetryFails` | kernel/src/memory/malloc.c:444-449 | with 4096-byte alignment no number of new regions meets a request of 3941 bytes that fits no older one |
| `KernelHeap.TiledHasRoom` | kernel/src/memory/malloc.c:381-381 | in a heap of tiled regions every request that passes the size test has room |
| `KernelHeap.Heap.FirstFit` | kernel/src/memory/malloc.c:379-381 | the first region that fits, or none |
| `KernelHeap.Heap.AddRegion` | kernel/src/memory/malloc.c:457-548 | the heap gains one new region; the others are unchanged |
| `KernelHeap.Heap.Alloc` | kernel/src/memory/malloc.c:367-455 | succeeds exactly when a region fits or the rounding leaves more than the cost of a slot; the block is carved out of the first region that fits, or of a new one; all else is unchanged, the heap stays valid, and tiled if it was |
| `KernelHeap.Heap.Find` | kernel/src/memory/malloc.c:555-568 | a chunk with the address, or none exactly when there is none |
| `KernelHeap.SameChunk` | kernel/src/memory/malloc.c:555-562 | an address identifies region and chunk |
| `KernelHeap.Heap.Cull` | kernel/src/memory/malloc.c:550-626 | the block's region is culled as written, all others unchanged; the heap stays valid, and tiled exactly when the block was not between two open chunks |
| `KernelHeap.Heap.CopyBytes` | kernel/src/memory/malloc.c:658-662 | the bytes are copied and no other byte changes |
| `KernelHeap.CopiedMeans` | kernel/src/memory/malloc.c:658-662 | byte a of the target is byte a of the source, and bytes outside the target stay |
| `KernelHeap.Heap.Change` | kernel/src/memory/malloc.c:628-668 | NULL for an unknown address; otherwise the new block is live and starts with the bytes of the old one up to the smaller size, no other byte changes, the old block is culled, and the tiling survives exactly when that was not between two open chunks |
| `KernelHeap.ChunksDisjoint` | kernel/src/memory/malloc.c:402-411 | no two chunks of a heap share a byte, headers and chunk arrays included |
| `Bitmap.SetTests` | kernel/include/stdlib/bitmap.h:5-7 | setting one of the 32 numbered bits changes the test of that bit only, although the mask of bit 31 sign-extends |
| `Bitmap.ClearTests` | kernel/include/stdlib/bitmap.h:5-7 | likewise for clearing |
| `Bitmap.SetFromZero` | kernel/include/stdlib/bitmap.h:5-5 | which bits of a word the masks set, the sign extension of bit 31 included |
| `PageMap.FreeCountMark` | kernel/src/memory/hardware_reserve.c:70-78 | marking a free run lowers the number of free pages by exactly its length |
| `PageMap.FreeCountUnmark` | kernel/src/memory/hardware_reserve.c:70-78 | freeing a used run raises it by exactly its length |
| `PageMap.FreeCountIsSize` | kernel/src/memory/hardware_reserve.c:73-75 | the count is the number of free pages |
| `PageMap.MarkBack` | kernel/src/memory/hardware_reserve.c:114-138 | freeing a run that was marked restores the map |
| `PageMap.Pages.Init` | kernel/src/memory/hardware_reserve.c:26-51 | fails exactly when a size is too large; otherwise exactly the kernel's pages are used |
| `PageMap.Pages.FindFree` | kernel/src/memory/hardware_reserve.c:53-68 | the lowest free run that ends before the zone's last page, or -1 exactly when there is none |
| `PageMap.Pages.SumFree` | kernel/src/memory/hardware_reserve.c:70-78 | the number of free pages, in bytes, within an int32_t |
| `PageMap.Pages.MarkWrapped` | kernel/src/memory/hardware_reserve.c:114-116 | marking n pages from (unsigned long)-1 on marks pages 0 to n-2 |
| `PageMap.Pages.WrappedValid` | kernel/src/memory/hardware_reserve.c:108-116 | after that the map is still the union of kernel pages and runs exactly when those pages were used already |
| `PageMap.LowestExact` | kernel/src/memory/hardware_reserve.c:56-65 | where find_free stops, all pages are free, the run ends before the zone's last page, and every lower run has a used page |
| `PageMap.FullExact` | kernel/src/memory/hardware_reserve.c:56-67 | find_free fails exactly when every run of that length has a used page |
| `PageMap.Pages.Reserve` | kernel/src/memory/hardware_reserve.c:85-123 | at least one page; kernel requests search the first 16 MB, user requests the rest; the lowest usable run of the zone is marked, disjoint from all outstanding ones; the map stays the union of kernel pages and runs; when no run exists, pages 0 to n-2 are marked and the address one page below the offset is returned |
| `PageMap.Pages.Relinquish` | kernel/src/memory/hardware_reserve.c:126-140 | exactly the run's pages are free again |
| `PageMap.Pages.RunIsNew` | kernel/src/memory/hardware_reserve.c:106-116 | a free run is disjoint from every outstanding one and from the kernel's pages |
| `BlockMap.PathRoundTrip` | kernel/src/fs/ext2/inode.c:201-244 | each block number has an index path in range, from which it can be recovered |
| `BlockMap.BlockRoundTrip` | kernel/src/fs/ext2/inode.c:201-244 | each index path in range belongs to a block number |
| `BlockMap.SetPathExact` | kernel/src/fs/ext2/inode.c:253-283 | set follows the path of get exactly when the block is not the first of an indirect range |
| `BlockMap.TreeFrame` | kernel/src/fs/ext2/inode.c:187-199 | the indirect blocks of a tree stay distinct when no block of the tree is written |
| `BlockMap.FillGrown` | kernel/src/fs/ext2/inode.c:265-296 | replacing an entry below an indirect block keeps the tree's blocks distinct, takes new ones only from the free list, and keeps every other mapped entry |
| `BlockMap.OneSlotSound` | kernel/src/fs/ext2/inode.c:246-299 | growing one slot's tree this way keeps all indirect blocks of the inode distinct and the free blocks fresh |
| `BlockMap.SetThenGet` | kernel/src/fs/ext2/inode.c:187-299 | away from the range starts: get after set is the new block, every other mapped block keeps its own, the inode stays sound, and only indirect and free blocks are written |
| `BlockMap.BeyondRanges` | kernel/src/fs/ext2/inode.c:281-298 | beyond the last range set does nothing and get gives 0 |
| `BlockMap.SetAtSingle` | kernel/src/fs/ext2/inode.c:253-257 | at block 12 set replaces the single indirect block itself |
| `BlockMap.SetAtDouble` | kernel/src/fs/ext2/inode.c:258-266 | at the first double indirect block set changes no block |
| `BlockMap.SetAtTriple` | kernel/src/fs/ext2/inode.c:267-280 | at the first triple indirect block set follows a word outside the block read: with a number there exactly that block's first entry is replaced, with 0 there the entry stays as it was |
| `BlockMap.TripleJunk` | kernel/src/fs/ext2/inode.c:267-280 | what get then reads, for every number in the scratch memory |
| `BlockMap.SetTakesEffect` | kernel/src/fs/ext2/inode.c:246-299 | replacing a mapped entry takes effect exactly away from the range starts, or under a condition on the old disk, for every content of the scratch memory |
| `BlockMap.RangeStartLost` | kernel/src/fs/ext2/inode.c:246-299 | for each range start, a sound inode on which the set is lost |
| `Ext2.GetDiskBlockNumber` | kernel/src/fs/ext2/inode.c:201-244 | the signed arithmetic and the reads through one buffer give the block at the end of the path, 0 beyond the last range |
| `Ext2.Single` | kernel/src/fs/ext2/inode.c:213-217 | the single indirect range: one pointer of block 12 |
| `Ext2.Double` | kernel/src/fs/ext2/inode.c:219-226 | the double indirect range: pointer b / 1024, then pointer b mod 1024 |
| `Ext2.Triple` | kernel/src/fs/ext2/inode.c:228-238 | the triple indirect range: three pointers, the most significant index first |
| `Ext2.AllocMetadataBlock` | kernel/src/fs/ext2/inode.c:187-199 | a zero slot gets the allocator's next block, written back when it lies in a buffer; a nonzero one is left alone |
| `Ext2.SetDiskBlockNumber` | kernel/src/fs/ext2/inode.c:246-299 | inode, disk and free list are those of `BlockMap.SetBlock`, at every block number and for every content of the scratch buffer |
| `Ext2.WordBytes` | kernel/src/fs/ext2/inode.c:173-178 | a 32-bit word of a block is its four bytes, least significant first |
| `Ext2.ReadInodeBlock` | kernel/src/fs/ext2/inode.c:152-163 | the bytes of the disk block that the map gives |
| `Ext2.Gather` | kernel/src/fs/ext2/inode.c:97-109 | the piece of one block extends the bytes read so far |
| `Ext2.Piece` | kernel/src/fs/ext2/inode.c:98-106 | the wrapped 32-bit lengths are those of the file range cut at block borders, also when the end is block-aligned |
| `Ext2.FileBytesAt` | kernel/src/fs/ext2/inode.c:86-92 | byte k of a file is byte k mod 4096 of the disk block that the map gives for file block k / 4096 |
| `Ext2.GatherBlocks` | kernel/src/fs/ext2/inode.c:96-109 | the loop copies exactly the file bytes between two offsets and touches nothing behind them |
| `Ext2.ReadInodeFiledata` | kernel/src/fs/ext2/inode.c:83-114 | the buffer gets exactly the file bytes from offset to the smaller of offset + size and the file size, that length is returned, and the rest of the buffer is untouched |
| `Ext2.ReadLengthExact` | kernel/src/fs/ext2/inode.c:85-113 | the returned length is right exactly when the offset is within the file and offset + size does not wrap |
| `Ext2.SetKeepsFile` | kernel/src/fs/ext2/inode.c:246-299 | away from the range starts, set replaces the bytes of one file block and no other mapped byte of the file |
| `Spinlock.TakeTicketWord` | kernel/src/locks/spinlock.c:11-17 | adding the ticket increment to the word increments the upper half modulo 2^16 and leaves the lower alone |
| `Spinlock.ContendedWord` | kernel/src/locks/spinlock.c:37-41 | the rotated subtraction is zero exactly when the halves are equal |
| `Spinlock.WordSteps` | kernel/src/locks/spinlock.c:4-61 | the instructions on the word do what the steps do to the counters, and trylock's test is the one the steps branch on |
| `Spinlock.StepKeeps` | kernel/src/locks/spinlock.c:4-61 | each access that leaves at most 65535 tickets outstanding keeps the invariant and is a step of the abstract queue |
| `Spinlock.RunKeeps` | kernel/src/locks/spinlock.c:4-61 | over every interleaving with at most 65535 tickets outstanding the word counts the queue |
| `Spinlock.MutualExclusion` | kernel/src/locks/spinlock.c:4-61 | over every interleaving of any number of threads with at most 65535 tickets outstanding at most one thread holds the lock, across wrap-around |
| `Spinlock.EntersInOrder` | kernel/src/locks/spinlock.c:21-24 | the thread that enters took its ticket first of all that are waiting, and no other holds the lock |
| `Spinlock.TryExact` | kernel/src/locks/spinlock.c:29-54 | trylock succeeds exactly when no thread has a ticket |
| `Spinlock.FrontProceeds` | kernel/src/locks/spinlock.c:21-24 | the front thread enters after at most one more read |
| `Spinlock.AskEffects` | kernel/src/locks/spinlock.c:10-54 | what a thread holds after taking a ticket, rereading, entering, and trying |
| `Spinlock.UnlockReleases` | kernel/src/locks/spinlock.c:56-61 | the holder can always unlock: the owner advances by one, the thread is idle, the queue loses its front, and the next thread may enter after at most one more read |
| `Spinlock.ServedInTurn` | kernel/src/locks/spinlock.c:4-61 | from every state of the protocol each thread with a ticket comes to hold the lock once those before it finish |
| `Spinlock.TooManyTickets` | kernel/src/locks/spinlock.c:37-41 | a run from the initial state that reaches 65536 tickets and ends with two owners |
| `Crc7.DivideIsHorner` | kernel/src/drivers/sd.c:507-514 | bit-by-bit reduction is long division by x^7 + x^3 + 1 |
| `Crc7.MessageBitsAt` | kernel/src/drivers/sd.c:510-512 | bit 8i + j of the message is bit j of byte i |
| `Crc7.BitsValue` | kernel/src/drivers/sd.c:510-512 | the first bit of a byte counts most |
| `Crc7.TableStep` | kernel/src/drivers/sd.c:511-511 | one table step appends eight message bits |
| `Crc7.ShiftEntry` | kernel/src/drivers/sd.c:500-503 | the inner loop multiplies an entry by x^7 and touches no other |
| `Crc7.MakeTable` | kernel/src/drivers/sd.c:495-505 | entry i is i times x^7 reduced, for all 256 |
| `Crc7.IndexExact` | kernel/src/drivers/sd.c:511-511 | the index, computed in int, is below 256 exactly when the running value has seven bits |
| `Crc7.Times7Low` | kernel/src/drivers/sd.c:499-503 | every entry of the table has seven bits |
| `Crc7.Crc` | kernel/src/drivers/sd.c:507-514 | for messages of any length: the index stays in the table, and the result is the remainder of M(x) x^7, shifted left with the low bit set |
| `Crc7.KnownCommand` | kernel/src/drivers/sd.c:507-514 | the command 40 00 00 00 00 has the CRC byte 95 that section 4.5 of the SD Physical Layer Simplified Specification gives |
| `Crc7.PackOctets` | kernel/src/drivers/sd.c:520-523 | the four argument bytes determine the argument |
| `Crc7.MakeCmd` | kernel/src/drivers/sd.c:516-525 | index, argument in big-endian order, and the CRC of those five bytes |

## Left out

- RbInsert.InsertColor: the maxima are right afterwards if they were before the rotations, which the caller establishes by propagating first, as augmented insertion expects; `rb_add` itself is modelled with the dummy callbacks.
- RbErase.Rehang: the three independent link writes of the two-children case are made in another order than in the source; the second and third case of the erase share one search for the successor.
- RbPostorder.ReplaceNode: value and augmented field belong to the surrounding structure and are not copied, so nothing is stated about maxima.
- RbTree: memory ordering of the link writes for concurrent readers is not modelled.
- Qsort.Quicksort: the comparison must be a total preorder on the elements present; the element size is positive, since the byte loop of SWAP does not end for 0; 32-bit offsets do not wrap, with the exact condition in `Qsort.SentinelExact`.
- Perf.Bsearch: midpoints and offsets do not wrap, with the exact condition in `Perf.SearchExact`.
- Perf.PerfHash: `char` is unsigned, as on ARM.
- Perf.InitEvents: the table of 180 events is a table of any length up to 2^28; the layout of an entry is that of 8-byte pointers.
- HeapRegion.RunTiled: as written the tiling does not survive two-sided merges; `HeapRegion.CullTiled` gives the exact condition.
- HeapRegion.RunSound: each request finds room below the chunk array's header, without which alloc overwrites the array; `HeapRegion.CarveSound` shows this is exact for each call.
- KernelHeap.Heap.Alloc: sizes stay below 2^31, a region that passes the size test has room, page reservation succeeds with pages apart from the existing regions, and the kernel's own region has room for one more region slot; its bookkeeping, `grow_kheap` and `destroy` are not part of this model. The endless recursion of a request that never fits is the outcome `Repeats`.
- KernelHeap.Heap.Cull: the pointer is that of a live block; for an unknown one the source reads past its arrays.
- KernelHeap.Heap.Change: payload bytes are kept apart from headers and slots, which `HeapRegion.SoundApart` shows to be disjoint; clearing of new regions is not modelled.
- HeapMemory.RegionBlock.Merge: the two merges of cull write slots and headers in different orders; they are one body here.
- PageMap.Pages.FindFree: the searched pages stay within the bitmap; the source does not check this.
- PageMap.Pages.Reserve: when no run exists, the one store outside the map is not modelled; clearing of the pages is not modelled.
- PageMap.Pages.Relinquish: the call matches an outstanding reservation.
- BlockMap.SetThenGet: indirect blocks are distinct and the allocator hands out fresh, cleared blocks, at least three of them; `ext2_alloc_block` itself, which does not clear blocks, and its bitmap are not part of this model.
- Ext2.GetDiskBlockNumber: block numbers from 2^31 + 12 on become negative and index outside the inode; they are excluded. Blocks are 4096 bytes, the size of one disk read.
- Ext2.SetDiskBlockNumber: writing the inode itself back to its table is not modelled; block numbers are below 2^31.
- Spinlock.StepKeeps: the one-word protocol is modelled. The header declares `slock` and `tickets` as separate fields and `spin_unlock` names a field `tickers`; the code uses both as two views of one word. Exclusive loads and stores are one step.
- Crc7.Crc: the table has been filled; the call of `make_crc_table` in the driver is commented out.
- Writing and freeing in ext2, directories, inode allocation, and all of FAT32.
- Device code, interrupts, page tables, framebuffer, console, shell, editor, tracing and system calls: device behaviour and output are not visible.
- Linked lists, generic trees, queues, slab, semaphores and processes: unfinished in the source, or only easy members.
- User-space copies of the heap: the kernel's is modelled once.
