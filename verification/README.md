# lunarOS memory management, verified

A Dafny model of the memory side of the lunarOS kernel and proofs about it:
the binary buddy page allocator on its intrusive free lists, the page layer above
it, and the code around them that has loops of its own (the boot-time bump
allocator, the Multiboot2 memory-map parser, the slab object stack, the reserved
page table, and the number printer).

`dafny verify dfyconfig.toml` checks the whole project.

## How the buddy allocator is modelled

A buddy area keeps four views of one piece of memory: a bit per tree node, packed
into bytes; one circular list per bucket, whose links lie inside the free blocks;
a byte counter; and a tag in the page descriptor of every live block. The proof
has three layers.

1. *Arithmetic* (`Words`, `Nodes`): 64-bit wrap-around, shifts, the node macros,
   and the interval of memory each node stands for.
2. *An abstract machine* (`Blocks`, `Ledger`, `Canonical`, `Areas`): each node is
   `Free`, `Live`, `Split` or `Below` a block, and each bucket has the order of
   its free list. There is one function per step of the source's loops. The
   invariant `Ok` is local (`NodeOk` speaks of one node and its children); the
   facts about all of memory are proved from it: the partition, history
   independence, conservation, completeness.
3. *The object* (`Links`, `BitTree`, `Frames`, `Image`, `Steps`, `Buddy`): class
   `BuddyArea` over the byte array, the links in memory, the page descriptors and
   the counter. `Good` says the four views represent an abstract area. Every
   method takes valid views to valid views and computes exactly the abstract step.
   `Untouched` adds the frame: an operation writes to no live block, to no other
   block's descriptor and to nothing outside the area, and callers' writes to their
   live blocks damage no list. `Readback` shows that the views determine the area:
   an image represents one abstract area at most.
   `Descent` says what `buddy_tree_walk` as written does to any tree and any lists.

`Pages` prepares the memory areas and puts several buddies over one memory, as
`page_alloc` and `page_free` see them; `Scan` is the search of `page_alloc` through
the raw lists of all areas; `Init` builds an area from the boot-time pool of
`Reserved`, and `Bootstrap` builds the whole page allocator from the prepared memory
areas. `Encoding` writes Multiboot2 information blocks as a boot loader does, for the
parser in `Multiboot` to read back.

## Where the code departs from what it is for

Seven places do not do what the rest of the code relies on. Each is modelled as
written, with the exact condition under which it is right, and the smallest repair
is modelled beside it and proved for all inputs.

| place | as written | result | repair |
|---|---|---|---|
| `buddy_tree_walk`, lines 79-86 | starts at the root whether or not it is free, claims nothing, and goes left below a set bit although either child may be the free one | `AllocAsWritten`: some valid area, of whatever live blocks, has the image and the counter left behind if and only if the request was refused or the list of the very bucket needed was not empty; `WalkDescends`: what the walk returns and writes, from the bits it starts on; `FirstRequestBreaks`: on a fresh area every request below the whole size leaves the root and its left child, which share an address, at the ends of two lists, an image of no valid state | claim the last block of the deepest non-empty list at or above the bucket, then the same loop from there |
| `buddy_alloc`, line 111 | debits the counter before the search that may find nothing | part of the condition above | debit once a block is claimed |
| `buddy_free`, lines 143-144 | credits the size after merging | `FreeAsWritten`: some valid area has the image and the counter left behind if and only if nothing merged; `MergedCredit`: otherwise the credit is at least twice what it should be; `FirstReleaseMerges`: releasing the first block ever taken already merges | credit the size before merging |
| `buddy_pop`, line 68 | returns the direct-map alias where a physical address is used | `PoppedAliasOutsideTree`: the alias always maps to a node outside the tree | one address space, the fixed offset left out |
| `page_alloc`, line 65 | passes a number of pages where bytes are expected | `PagesAsBytes`: the block covers the pages if and only if at most one was asked for | pass bytes |
| `vmm_fetch_map`, line 59 | reserves one slot for `npages` pages | `MapAreaAsWritten`: the table stays valid if and only if at most one page was asked for; `SecondPageLost`: what the next mapping does otherwise | reserve `npages` slots |
| `cache_get`, line 7 | allows `index == entries_sz` | `GetAsWritten`: reads past the array if and only if every object is handed out; `GetsEmpty`: as many gets as there are objects lead there | `>=` |

More findings, without a repair in the model:

- `bootstrap_page_allocator` accepts areas of 128 pages, but the buddy and its
  descriptors need 129 (`BootstrapPages`).
- `page_alloc` gives up at the first area whose counter suffices even when that
  area is too fragmented and a later one is not (`GivesUpEarly`; with one page
  taken from the first of two areas, a request for 127 pages does it,
  `GivesUpOn127Pages`).
- `page_alloc` also walks the list head of an area too short for a buddy, which is
  never initialised, and takes NULL for a buddy there. It comes to that exactly when
  some area is shorter than 512 KiB and every area before it has a list on which no
  buddy has enough available (`FindBuddy`); with a short first area every request
  does (`ShortFirstArea`).
- `page_init` panics on a region at address 0 that is shorter than the kernel's end
  rounded up to pages, and on no other (`PageInit`; a region of one page under a
  kernel of two does it, `PanicAt`): the subtraction in `init_mem_map` wraps exactly
  when more is in use than there is (`PanicExact`).
- `page_init` moves the start of such a region and leaves its length, so addresses
  up to that much behind the region get its descriptors (`ShiftedCaptures`).
- `alloc_cache` passes the physical address that `page_alloc` returned to
  `vmm_virt2phys`, which panics on it whatever it is (`SlabLookupPanics`).

The comment at `kernel/kernel/buddy.c:16-18` says a set bit means that the left child
is free. The code keeps a different fact, and the model follows the code: the bit
is set if and only if exactly one child is free (`BitOf`).

## Model

| member | source | states |
|---|---|---|
| Words.WrapTest | kernel/kernel/buddy.c:109-110 | the unsigned wrap test refuses exactly the sizes larger than what is available |
| Words.ShlShr | kernel/kernel/buddy.c:34-42 | shifting right and back loses the low bits and nothing else |
| Words.Log2OfPow2 | kernel/include/lunaros/kernel.h:29-32 | the trailing-zero count of a power of two is its exponent |
| Words.Log2Exact | kernel/include/lunaros/kernel.h:29-32 | the trailing-zero count is a logarithm on powers of two and on no other number |
| Nodes.SiblingInvolution | kernel/include/lunaros/buddy.h:20-23 | the sibling macro, a bitwise xor, is an involution and keeps the parent |
| Nodes.DepthChildren | kernel/include/lunaros/buddy.h:21-22 | both child macros lead one bucket down |
| Nodes.DepthInTree | kernel/kernel/buddy.c:44-46 | a node index is in the tree exactly when its bucket is one of the area's |
| Nodes.AddressRoundTrip | kernel/kernel/buddy.c:34-42 | `ptr2node` undoes `node2ptr` at every bucket |
| Nodes.AddressRoundTripBack | kernel/kernel/buddy.c:34-42 | `node2ptr` undoes `ptr2node` on every block-aligned address of the area |
| Nodes.ChildIntervals | kernel/kernel/buddy.c:34-37 | the two children halve their parent's interval, left then right |
| Nodes.WithinArea | kernel/kernel/buddy.c:34-37 | every node's interval lies inside the area |
| Nodes.SameBucketDisjoint | kernel/kernel/buddy.c:34-37 | two nodes of one bucket never overlap |
| Nodes.NestedOrDisjoint | kernel/kernel/buddy.c:34-37 | any two intervals overlap if and only if one node is above the other |
| BitTree.NodeIsSplit | kernel/kernel/buddy.c:21-23 | reads the node's bit of the packed bytes |
| BitTree.NodeSetSplit | kernel/kernel/buddy.c:25-27 | the new bytes are the old ones with the node's bit set |
| BitTree.NodeParentFlip | kernel/kernel/buddy.c:29-32 | the new bytes are the old ones with the parent's bit flipped |
| BitTree.SetOne | kernel/kernel/buddy.c:25-27 | setting a bit changes that node's bit and no other node's |
| BitTree.FlipOne | kernel/kernel/buddy.c:29-32 | flipping a bit changes that node's bit and no other node's |
| Blocks.InitialOk | kernel/kernel/buddy.c:150-175 | the initial state, one free root on list 0, satisfies the invariant |
| Blocks.TakeOk | kernel/kernel/buddy.c:112-117 | claiming the block at the back of a list keeps tree and lists in agreement |
| Blocks.SplitOk | kernel/kernel/buddy.c:87-98 | one turn of the split loop keeps tree and lists in agreement |
| Blocks.MergeOk | kernel/kernel/buddy.c:133-142 | one turn of the merge loop keeps the invariant, and the sibling it removes is on the list of its bucket |
| Blocks.SettleOk | kernel/kernel/buddy.c:145-146 | the final push keeps the invariant, so no two siblings are ever both free |
| Blocks.DeepestIs | kernel/kernel/buddy.c:112-114 | the repaired search finds the deepest non-empty list at or above a bucket, or none when all are empty |
| Ledger.SplitDownOk | kernel/kernel/buddy.c:77-101 | splitting down swaps the claimed block for one block of the wanted bucket in the live set, and keeps the invariant |
| Ledger.AllocateOk | kernel/kernel/buddy.c:103-121 | allocation fails if and only if no free block is in the bucket or above it, then changes nothing; otherwise it adds one new block of that bucket to the live set |
| Ledger.ReleaseOk | kernel/kernel/buddy.c:123-148 | a release, however far it merges, removes exactly the released block from the live set and keeps the invariant |
| Ledger.SplitDownBytes | kernel/kernel/buddy.c:77-101 | splitting down frees the bytes of the start block less those of the block returned |
| Ledger.AllocateBytes | kernel/kernel/buddy.c:108-111 | a successful allocation lowers the free bytes by exactly its block's size |
| Ledger.ReleaseBytes | kernel/kernel/buddy.c:133-144 | a release raises the free bytes by exactly the released block's own size, however far it merges |
| Ledger.FrontierBytes | kernel/kernel/buddy.c:16-18 | reading the tree in index order, the blocks seen and the nodes pending below splits add up to the area |
| Ledger.TotalBytes | kernel/kernel/buddy.c:150-159 | free and live bytes add up to the whole area in every valid tree |
| Canonical.LiveBelow | kernel/kernel/buddy.c:133-142 | below every split node there is a live block, so nothing that could be merged stays split |
| Canonical.OnlyBelow | kernel/kernel/buddy.c:133-142 | nothing is free, live or split below a block |
| Canonical.FreeIsMaximal | kernel/kernel/buddy.c:77-148 | a node is free if and only if it is a maximal node that meets no live block |
| Canonical.SplitIsAboveLive | kernel/kernel/buddy.c:77-148 | a node is split if and only if it lies strictly above a live block |
| Canonical.HistoryIndependent | kernel/kernel/buddy.c:77-148 | two valid states with the same live blocks have the same free blocks and the same tree bits |
| Canonical.FullRelease | kernel/kernel/buddy.c:123-175 | with no live block the only free node is the root and every bit is clear |
| Canonical.MergeUndoesSplit | kernel/kernel/buddy.c:87-98 | merging the right half of a split gives back the state before it, list order included |
| Canonical.ReleaseUndoesSplits | kernel/kernel/buddy.c:77-142 | releasing the block that splitting down returned is the same as releasing the block it started from |
| Canonical.SettleUndoesTake | kernel/kernel/buddy.c:112-146 | releasing the block just taken off a list gives back the state before, list order included |
| Canonical.AllocateThenRelease | kernel/kernel/buddy.c:103-148 | allocating and releasing the result is the identity on the tree, the lists and their order |
| Canonical.BlocksDisjoint | kernel/kernel/buddy.c:103-148 | no two blocks, live or free, of any buckets, overlap or start together |
| Canonical.Partition | kernel/kernel/buddy.c:103-148 | every byte of the area lies in exactly one block |
| Canonical.SplitDownInside | kernel/kernel/buddy.c:81-99 | splitting down leaves every node outside the claimed block as it was |
| Canonical.SplitDownTiles | kernel/kernel/buddy.c:81-99 | every byte of the claimed block ends in exactly one of the blocks pushed or in the one returned |
| Areas.TightBucket | kernel/kernel/buddy.c:48-56 | the size found covers the request, is one page or less than twice the request, and a bucket's blocks cover the request exactly when it is that bucket or above |
| Areas.SearchEnds | kernel/kernel/buddy.c:51-54 | in 64-bit arithmetic the bucket search terminates if and only if the request is at most 2^63 |
| Areas.FreshOk | kernel/kernel/buddy.c:156-173 | a fresh area is valid with the whole size available |
| Areas.AvailableBound | kernel/kernel/buddy.c:109-111 | the counter is the area less its live bytes and never leaves the int range |
| Areas.Affordable | kernel/kernel/buddy.c:107-110 | the wrap test passes exactly the sizes that fit what is available, and then the bucket index has not wrapped |
| Areas.AllocAtComplete | kernel/kernel/buddy.c:111-121 | past the wrap test: fails exactly when no block of the bucket or above is free; otherwise one new live block and the counter down by its size |
| Areas.AllocComplete | kernel/kernel/buddy.c:103-121 | a request fails if and only if every free block is smaller than it, and a failed request changes nothing |
| Areas.AllocGives | kernel/kernel/buddy.c:103-121 | a request that succeeds adds one block of the tightest size to the live set and debits exactly that size |
| Areas.FreeExact | kernel/kernel/buddy.c:123-148 | a release removes exactly that block and credits exactly its size |
| Areas.AllocThenFree | kernel/kernel/buddy.c:103-148 | allocating and releasing the result is the identity on the whole area: tree, lists in order, counter |
| Areas.RunConserves | kernel/kernel/buddy.c:103-148 | after any run: the counter is the free bytes, the live bytes are the rest, and no two siblings are both free |
| Areas.RunPartitions | kernel/kernel/buddy.c:103-148 | after any run every byte of the area lies in exactly one block |
| Areas.RunsAgree | kernel/kernel/buddy.c:77-148 | two runs that end with the same live blocks end with the same tree and the same counter |
| Areas.RunFullRelease | kernel/kernel/buddy.c:103-175 | a run that leaves nothing live ends in the initial state: tree, lists and counter |
| Areas.FreshServes | kernel/kernel/buddy.c:103-121 | a fresh area serves every request up to its size |
| Areas.FirstReleaseMerges | kernel/kernel/buddy.c:133-144 | the first block taken from a fresh area merges when it is released, unless it is the whole area |
| Areas.FragmentedRefuses | kernel/kernel/buddy.c:103-121 | one page taken, an area refuses a request for exactly what its counter says is left, and a fresh one serves it |
| Links.Memory.Init | kernel/kernel/list.c:6-9 | the link becomes an empty ring |
| Links.Memory.PushBack | kernel/kernel/list.c:11-17 | the four field writes in order, as one update of memory |
| Links.Memory.Remove | kernel/kernel/list.c:19-26 | the four field writes in order, as one update of memory |
| Links.Memory.Empty | kernel/kernel/list.c:36-38 | true if and only if the ring at this head has no entry |
| Links.Memory.Pop | kernel/kernel/list.c:28-34 | NULL and no change on an empty list, otherwise the entry at the back, removed |
| Links.PushBackRing | kernel/kernel/list.c:11-17 | pushing a new entry appends it to the ring and touches no other link |
| Links.RemoveRing | kernel/kernel/list.c:19-26 | removing an entry from anywhere in its ring closes the gap, leaves it a ring of its own and touches no other ring |
| Links.RemoveClearRing | kernel/kernel/buddy.c:71-75 | the removed link is zero, which does not disturb the ring it left |
| Frames.Phys2Page | kernel/kernel/page.c:26-39 | the descriptor found is that of the first area that does not end before the address |
| Frames.AreaOf | kernel/kernel/page.c:30-36 | which area the search settles on, and that it fails exactly when every area ends before the address |
| Frames.OwnedFrame | kernel/kernel/page.c:26-39 | an address of an owned region gets a descriptor inside its own area's map |
| Frames.FarApart | kernel/kernel/page.c:34 | addresses a page or more apart have different descriptors even when unaligned |
| Frames.SortedAreasOwn | kernel/kernel/page.c:26-39 | sorted, disjoint, non-touching areas own the regions their maps cover |
| Image.AddrInArea | kernel/kernel/buddy.c:34-37 | every node's address lies in the area and has a descriptor in the area's map |
| Image.BlocksApart | kernel/kernel/buddy.c:93-94 | different blocks have different start addresses and different descriptors, although a node shares its start with its leftmost descendants |
| Image.OkApart | kernel/kernel/buddy.c:58-75 | in a valid state no two list entries, of one list or of two, share an address |
| Image.PushRep | kernel/kernel/buddy.c:58-61 | a push appends the block to its own ring and leaves every other ring in place |
| Image.RemoveRep | kernel/kernel/buddy.c:71-75 | a removal from the middle of a ring takes out that block and leaves every other ring in place |
| Steps.SplitRep | kernel/kernel/buddy.c:87-90 | on a claimed block the bit is clear, and setting it and pushing the left child represents the abstract split |
| Steps.WalkRefines | kernel/kernel/buddy.c:81-99 | from a claimed block the walk represents the abstract split-down, returns its block and tags it |
| Steps.TakeRep | kernel/kernel/buddy.c:112-117 | popping a list and flipping the parent's bit represents the abstract claim |
| Steps.FlippedBit | kernel/kernel/buddy.c:135-136 | after the flip the bit is clear if and only if the sibling is free, and then it is on the list of its bucket |
| Steps.MergeRep | kernel/kernel/buddy.c:135-141 | flipping the parent's bit and removing the sibling represents the abstract merge |
| Steps.SettleRep | kernel/kernel/buddy.c:135-146 | the last flip and the push represent the end of the abstract release |
| Steps.TagRep | kernel/kernel/buddy.c:118-119 | writing a block's order keeps the lists, the bits and every other live block's tag |
| Untouched.PushKeeps | kernel/kernel/buddy.c:58-61 | a push writes to no live block and to nothing outside the area |
| Untouched.RemoveKeeps | kernel/kernel/buddy.c:71-75 | a removal writes to no live block and to nothing outside the area |
| Untouched.PageKeeps | kernel/kernel/buddy.c:118-119 | writing one block's descriptor leaves those of all other live blocks and of other memory areas alone |
| Untouched.WalkKeeps | kernel/kernel/buddy.c:81-99 | a walk from a claimed block leaves every other live block, its descriptor and everything outside the area alone |
| Untouched.OwnersMayWrite | kernel/kernel/buddy.c:58-75 | whatever callers write into their live blocks, the area stays valid and the same |
| Buddy.BuddyArea.constructor | kernel/kernel/buddy.c:156-174 | an area in the initial state, valid exactly when the memory it is put in is its own; writes only to its list heads and its first link |
| Buddy.BuddyArea.InitLists | kernel/kernel/buddy.c:171-172 | every list is an empty ring |
| Buddy.BuddyArea.PushArea | kernel/kernel/buddy.c:173 | pushing the whole area on list 0 makes the views represent a fresh area when the memory is its own, and writes only to list heads and the first link |
| Buddy.BuddyArea.FindBkt | kernel/kernel/buddy.c:48-56 | the index is the deepest bucket less the doublings needed, modulo 2^64 |
| Buddy.BuddyArea.Pop | kernel/kernel/buddy.c:63-69 | NULL exactly when the abstract list is empty, otherwise the address of its last block, whose link is zero |
| Buddy.BuddyArea.Remove | kernel/kernel/buddy.c:71-75 | unlinks the link at an address and makes it zero |
| Buddy.BuddyArea.SplitAt | kernel/kernel/buddy.c:87-90 | one split of the raw tree and lists, on any node |
| Buddy.BuddyArea.TreeWalk | kernel/kernel/buddy.c:77-101 | the loop computes the raw walk from any node |
| Buddy.BuddyArea.Claim | kernel/kernel/buddy.c:112-117 | fails without change exactly when the list is empty, otherwise represents the abstract claim |
| Buddy.BuddyArea.ClaimDeepest | kernel/kernel/buddy.c:112-117 | claims from the deepest non-empty list at or above a bucket, or changes nothing when there is none |
| Buddy.BuddyArea.SplitClaimed | kernel/kernel/buddy.c:81-99 | splits a claimed block down to its bucket as the abstract machine does, and writes the bucket to one descriptor only |
| Buddy.BuddyArea.TagClaimed | kernel/kernel/buddy.c:118-120 | tags a claimed block and returns its address; no other field of any descriptor changes |
| Buddy.BuddyArea.Needs | kernel/kernel/buddy.c:107-108 | the size is the tightest block, also when the bucket index wrapped |
| Buddy.BuddyArea.Alloc | kernel/kernel/buddy.c:103-121 | with the repaired walk: keeps all four views valid, computes the abstract allocation, returns NULL exactly when that fails and then changes nothing, writes the bucket to the descriptor of the block returned and nothing else to any descriptor, and writes to no live block |
| Buddy.BuddyArea.PayAsWritten | kernel/kernel/buddy.c:111-120 | past the wrap test, as written: if the bucket's own list was not empty, exactly the meant allocation; otherwise the walk from the root, whose result and writes the old bits decide, and no valid area has what it leaves |
| Buddy.BuddyArea.AllocAsWritten | kernel/kernel/buddy.c:103-121 | as written: refuses without change what exceeds the counter; takes a block of the bucket's own list as meant; when that list is empty, walks from the root to the node the old bits lead to, returns it if and only if its parent's bit was clear, and some valid area, of whatever live blocks, has the image and the counter left behind if and only if the list was not empty or the request refused. On a fresh area every request below the whole gets the last block, and two lists end at the first |
| Buddy.FreshHands | kernel/kernel/buddy.c:103-121 | from a fresh area the walk hands out the last block of the size asked for and leaves the root and its left child at the ends of two lists |
| Buddy.BuddyArea.TryMerge | kernel/kernel/buddy.c:133-142 | one turn: merges exactly when the sibling is free, and then represents the abstract merge |
| Buddy.BuddyArea.Climb | kernel/kernel/buddy.c:133-142 | the loop ends where the abstract release ends, with nothing left to merge |
| Buddy.BuddyArea.Coalesce | kernel/kernel/buddy.c:128-147 | the order recovered from the descriptor is the block's bucket, all but the counter becomes that of the abstract release, and that descriptor, and no other, is zeroed |
| Buddy.BuddyArea.Free | kernel/kernel/buddy.c:123-148 | with the repaired credit: keeps all four views valid, computes the abstract release, zeroes the descriptor of the block and no other, ignores NULL and addresses without a descriptor, and writes to no other live block |
| Buddy.BuddyArea.FreeAsWritten | kernel/kernel/buddy.c:123-148 | as written: NULL and addresses without a descriptor change nothing; otherwise the descriptor is zeroed, all but the counter is right, and some valid area, of whatever live blocks, has the image and the counter left behind if and only if the block merged with nothing |
| Buddy.MergedCredit | kernel/kernel/buddy.c:143-144 | the size credited is the block's own exactly when nothing merged, and at least twice it otherwise |
| Buddy.CreditExact | kernel/kernel/buddy.c:144 | an otherwise right area is valid with one counter value only |
| Buddy.RealSize | kernel/kernel/buddy.c:107-108 | the shift by the wrapped difference still gives the tightest block size |
| AsWritten.SplitListed | kernel/kernel/buddy.c:89-90 | the left child of the node first split ends the list of its bucket |
| AsWritten.NextOrPushed | kernel/kernel/buddy.c:81-99 | a link that ends none of the lists the walk appends to keeps its next pointer, unless the walk pushed a block over it that starts there |
| AsWritten.FreeStays | kernel/kernel/buddy.c:81-99 | whatever valid state has the image a walk leaves, every block free before the walk is free in it |
| AsWritten.WalkNeverFits | kernel/kernel/buddy.c:111-114 | from any node of any valid area, the image a walk leaves fits no counter below the one before it, so the debit before the walk leaves no valid area of any live blocks |
| AsWritten.SplitFreeBreaks | kernel/kernel/buddy.c:81-99 | after the walk has split a free block no valid state at all has the image left behind |
| AsWritten.FirstRequestBreaks | kernel/kernel/buddy.c:77-101 | on a fresh area every request for less than the whole leaves the root and its left child at the ends of two lists, and no valid state has that image |
| Descent.WalkDescends | kernel/kernel/buddy.c:77-101 | any walk, on any tree and lists: it goes left below set bits and right below clear ones to one node of its bucket; sets the bits on the way and no other; below each clear one appends the left child to its list, and no other list ends differently; returns that node exactly when its parent's bit was clear, and then writes its bucket to its descriptor and nothing to any other |
| Descent.OneWay | kernel/kernel/buddy.c:81-98 | the bits decide which node that is |
| Descent.FreshDescent | kernel/kernel/buddy.c:77-101 | on a fresh area it is the last block of the bucket |
| Readback.RingUnique | kernel/kernel/list.c:6-38 | one head in one memory heads one list |
| Readback.RingsUnique | kernel/kernel/buddy.c:58-75 | the links determine every free list, in order |
| Readback.LiveNotSplit | kernel/kernel/buddy.c:118-132 | with the same free blocks and the same tags no node is live in one tree and split in another |
| Readback.GoodUnique | kernel/kernel/buddy.c:16-18 | lists, bits and tags determine the area they represent: every node, the lists in order and the counter |
| Readback.FitsExact | kernel/kernel/buddy.c:143-144 | an image of a valid area fits one counter value only |
| Init.BuddyAreaInit | kernel/kernel/buddy.c:150-175 | NULL, with memory unchanged, exactly when the pool has too little for the three allocations; otherwise a fresh area over the memory, descriptors and base given, with its list heads behind the struct and the tree in the part of the pool just taken and no other link written, valid exactly when the memory is the area's own |
| Init.AllocParts | kernel/kernel/buddy.c:151-169 | the three allocations succeed exactly when their rounded sizes together fit, and the list heads come right behind the struct and the tree |
| Init.IndicesFit | kernel/kernel/buddy.c:160-165 | every tree byte and list head the area uses lies inside what was allocated |
| Reserved.AlignTo8 | kernel/include/lunaros/kernel.h:37-38 | aligning to 8 rounds up to a multiple of 8, except that the last 7 values wrap to 0 |
| Reserved.ReservedPool.constructor | kernel/kernel/mm.c:15-17 | the pool starts with two pages and nothing handed out |
| Reserved.ReservedPool.Alloc | kernel/kernel/mm.c:13-26 | NULL without change exactly when the rounded size exceeds what is left, otherwise a zeroed region apart from all earlier ones and inside the pool, every other byte as it was; it covers the request exactly when the rounding did not wrap |
| Reserved.ReservedPool.Clear | kernel/kernel/mm.c:24 | the bytes of the region become zero and no other byte changes |
| Pages.PagesAsBytes | kernel/kernel/page.c:63-65 | the block served for a page count taken as bytes covers the pages if and only if at most one was asked for |
| Pages.InitMemMap | kernel/kernel/page.c:105-121 | panics exactly when some area has more in use than it has; every area before the first such one gets a map of one descriptor per unused page, counted as used, and the next multiple of 8 behind it as base; the others are unchanged |
| Pages.PreparedIs | kernel/kernel/page.c:107-116 | the map has one descriptor per unused page, counts as used, and the base is the next multiple of 8 behind it |
| Pages.PanicExact | kernel/kernel/page.c:107-110 | in 64-bit arithmetic the test before the panic fails exactly when the subtraction wrapped |
| Pages.PanicAt | kernel/kernel/page.c:107-110 | one page of memory with two in use leads to the panic |
| Pages.PageUpIs | kernel/kernel/page.c:130-134 | the page rounding yields the next multiple of 4096, and 0 for the last 4095 words |
| Pages.PageInit | kernel/kernel/page.c:123-140 | `page_init` up to the maps panics exactly when a region at the beginning of memory has fewer bytes, in whole pages, than the kernel's end; otherwise such a region starts at the page boundary at or behind the kernel's end, every other keeps its address, all keep their lengths, and each has its map |
| Pages.ShiftedCaptures | kernel/kernel/page.c:129-136 | the moved first area gets every address up to the moved end of its region, whatever region recorded later it belongs to |
| Pages.MapFits | kernel/kernel/page.c:107-110 | the map of an area fits what the area has left, when no more is in use than it has |
| Bootstrap.ListedIs | kernel/kernel/page.c:91-94 | the areas that get a buddy are those of at least 512 KiB, each once, in order |
| Bootstrap.StartOne | kernel/kernel/page.c:95-98 | one area's buddy starts fresh, out of the next 448 bytes of the pool, or NULL exactly when fewer are left |
| Bootstrap.LayoutsApart | kernel/kernel/page.c:91-101 | buddies of two areas, with list heads in different parts of the pool, share no address |
| Bootstrap.ValidOwns | kernel/kernel/page.c:90-103 | a valid page allocator has each of its buddies in memory its area owns |
| Bootstrap.BootstrapPageAllocator | kernel/kernel/page.c:90-103 | panics exactly when the pool is too small for all buddies; otherwise there is one fresh buddy in every long enough area and no other, and together they are a valid page allocator if and only if every such area owns its buddy's memory |
| Pages.BootstrapOwns | kernel/kernel/page.c:88-96 | the area owns its 512 KiB buddy and a descriptor for each of its pages if and only if this bound on its pages holds |
| Pages.BootstrapPages | kernel/kernel/page.c:93-96 | a page-aligned area needs 129 pages, one more than the least the source accepts |
| Pages.GoodElsewhere | kernel/kernel/page.c:57-86 | an operation on one area leaves every other area valid |
| Pages.PageAllocator.ServeOwn | kernel/kernel/page.c:65-71 | the serving area takes the abstract step; the new block's descriptor gets its bucket and its buddy, and nothing else is written to any descriptor |
| Pages.PageAllocator.PageAlloc | kernel/kernel/page.c:57-76 | in bytes: the first area whose counter suffices takes the abstract step, no other area changes, the new block's descriptor gets its bucket and its buddy and nothing else is written to any descriptor; NULL and no change when no counter suffices |
| Pages.PageAllocator.PageFree | kernel/kernel/page.c:78-86 | panics, with nothing changed, exactly on an address without a descriptor, and ignores NULL; otherwise the descriptor leads back to the buddy that served the block, that area takes the abstract release, the descriptor is zeroed, and no other area or descriptor changes |
| Pages.GivesUpEarly | kernel/kernel/page.c:60-75 | no area before the one asked could have served; the request then fails exactly when the area asked has no large enough block, whatever later areas have |
| Pages.GivesUpOn127Pages | kernel/kernel/page.c:60-75 | with one page taken from the first of two 512 KiB areas, a request for 127 pages is put to it and fails, and the second could serve it |
| Scan.FindBuddy | kernel/kernel/page.c:60-74 | the search over the lists of all areas in order: takes NULL for a buddy if and only if some area is shorter than 512 KiB and all before it are exhausted; finds nobody if and only if every area has a list and is exhausted; otherwise the first buddy with enough available |
| Scan.WalkList | kernel/kernel/page.c:61-64 | the walk of one list meets NULL exactly when the area is too short for a buddy, and otherwise finds the first entry with enough available, or none exactly when there is none |
| Scan.SearchIsPageAlloc | kernel/kernel/page.c:60-74 | where it asks a buddy, with one buddy per listed area, it is the one `Pages.PageAllocator.PageAlloc` asks |
| Scan.ShortFirstArea | kernel/kernel/page.c:60-75 | with a first area of 256 KiB every request takes NULL for a buddy, although the second area has 512 KiB available |
| Numbers.NumeralRoundTrip | kernel/lib/uitoa.c:4-10 | the numeral evaluates to the value it was made from, and starts with 0 only for 0 |
| Numbers.NumeralLength | kernel/lib/uitoa.c:7-10 | a numeral has at most n digits if and only if the value is below base^n |
| Numbers.BufferBounds | kernel/lib/vprintf.c:10 | 64-bit values take at most 22, 20 and 16 digits in bases 8, 10 and 16, and these bounds are reached |
| Numbers.WriteDigits | kernel/lib/uitoa.c:6-10 | the first loop leaves the numeral backwards and the rest of the buffer alone |
| Numbers.Reverse | kernel/lib/uitoa.c:11-17 | the second loop turns the digits round in place and leaves the rest of the buffer alone |
| Numbers.Uitoa | kernel/lib/uitoa.c:4-20 | the buffer holds the numeral and a terminator, and nothing behind it changed |
| Numbers.FmtNum | kernel/lib/vprintf.c:9-34 | emits sign, prefix and numeral of the magnitude, within the 64-byte buffer |
| Numbers.Signed | kernel/lib/vprintf.c:9-34 | the argument as a 64-bit two's complement number |
| Numbers.TextRoundTrip | kernel/lib/vprintf.c:9-34 | read as a C constant, with the base taken from the text itself ("0x", "0" or neither), the text gives the signed or unsigned argument, the most negative value included |
| Numbers.TextInjective | kernel/lib/vprintf.c:9-34 | no two arguments print alike, not even in different bases |
| Slab.KmallocIndexTight | kernel/kernel/slab.c:30-49 | the index is the first slab that holds the request, and the end of the table exactly when none does |
| Slab.StepConserves | kernel/kernel/slab.c:6-16 | a get or a put of a live object keeps free and live objects together equal to the filled set, each once |
| Slab.RunConserves | kernel/kernel/slab.c:6-16 | after any run of gets and puts of live objects the free and the live ones are disjoint and together the filled set |
| Slab.GetsEmpty | kernel/kernel/slab.c:6-10 | as many gets as there are free objects hand out all of them |
| Slab.Cache.constructor | kernel/kernel/slab.c:76-90 | a filled cache of one page with every object free |
| Slab.Cache.Get | kernel/kernel/slab.c:6-10 | with the repaired bound: NULL exactly when nothing is free, otherwise the top object, not live before |
| Slab.Cache.GetAsWritten | kernel/kernel/slab.c:6-10 | as written: reads past the array exactly when every object is live, otherwise does what is meant |
| Slab.Cache.Put | kernel/kernel/slab.c:12-16 | panics exactly when nothing is live; otherwise the object, whichever it is, is the next to be handed out, and the cache stays valid if and only if it was live |
| Slab.PutVerdict | kernel/kernel/slab.c:12-16 | a put keeps every object free or live and never both, each once, if and only if the object was live |
| Slab.FillCache | kernel/kernel/slab.c:86-90 | slot k holds the k-th object of the page |
| Slab.ObjectsTile | kernel/kernel/slab.c:86-90 | the objects do not overlap and stay inside the page |
| Multiboot.UsableIsFilter | kernel/kernel/multiboot.c:25-29 | the k-th usable entry is the available entry with exactly k available ones before it, and nothing else is usable |
| Multiboot.CountMemAvailable | kernel/kernel/multiboot.c:17-32 | counts the available regions over all memory-map tags of a well-formed sequence |
| Multiboot.CountTag | kernel/kernel/multiboot.c:24-29 | the inner loop adds the number of available entries of one tag |
| Multiboot.FillAreaInfo | kernel/kernel/multiboot.c:34-51 | slot k holds the k-th available region, for every region, and no other slot changes |
| Multiboot.FillTag | kernel/kernel/multiboot.c:40-49 | slot i + k holds the k-th available entry of the tag, and no other slot changes |
| Multiboot.WriteArea | kernel/kernel/multiboot.c:43-45 | one slot gets the address rounded up to 8 and the length, and no other slot changes |
| Multiboot.FillsOn | kernel/kernel/multiboot.c:42-47 | filling entries from a slot on and then more behind them is filling them all |
| Multiboot.RestSplits | kernel/kernel/multiboot.c:20-30 | the available entries from a tag on are its own followed by those of the tags after it |
| Multiboot.FilledWithin | kernel/kernel/multiboot.c:43-45 | the recorded area stays inside the reported region if and only if its address was a multiple of 8 |
| Multiboot.ParseMmap | kernel/kernel/multiboot.c:53-62 | the two passes agree: the array has one slot per available region, slot k holds region k, or NULL exactly when the pool is too small; `Encoding.AreaRead` says which regions these are |
| Encoding.Read32 | kernel/include/multiboot/multiboot2.h:203-207 | a 32-bit field reads back as the number whose base-256 digits were written, lowest first |
| Encoding.Read64 | kernel/include/multiboot/multiboot2.h:189-200 | the same for a 64-bit field |
| Encoding.RegionReads | kernel/kernel/multiboot.c:43-45 | the entry of a region written reads back as its base, its length and its type |
| Encoding.TagsRead | kernel/kernel/multiboot.c:17-32 | every sequence of tags written, memory maps of any entry size and other tags of any length, is well formed, and its entries are the regions of its memory maps, in order |
| Encoding.RegionsRead | kernel/kernel/multiboot.c:34-51 | the regions found are exactly those written as available, in order, with their bases and lengths |
| Encoding.AreaRead | kernel/kernel/multiboot.c:53-62 | area k recorded starts at the base of the k-th available region written, rounded up to 8, and has its length |
| Vmm.DirectMapRoundTrip | kernel/kernel/vmm.c:21-45 | `vmm_virt2phys` undoes `vmm_phys2virt` if and only if the address is below 64 TiB, and the alias is at that offset in the direct map |
| Vmm.SlabLookupPanics | kernel/kernel/slab.c:76-84 | `vmm_virt2phys` panics on every physical address, and finds it from its direct-map alias |
| Vmm.PoppedAliasOutsideTree | kernel/kernel/buddy.c:63-69 | the alias `buddy_pop` returns maps to a node outside any tree the source can build |
| Vmm.Decompose | kernel/kernel/vmm.c:99-103 | the table index and the offset can be read back from the virtual address |
| Vmm.DecomposeHigh | kernel/kernel/vmm.c:99-103 | the three upper indices can be read back too, and the address is canonical |
| Vmm.FrameBack | kernel/kernel/vmm.c:71-73 | an entry holds the frame of an address if and only if the address is below 2^52 |
| Vmm.EntryType | kernel/kernel/vmm.c:77-97 | an entry is present and writable, with pwt, pcd and pat set for UC, pwt alone for WT, and none of them otherwise |
| Vmm.MappedTranslates | kernel/kernel/vmm.c:69-106 | the page walk of a mapped page gives back its physical address with the offset |
| Vmm.PagesContiguous | kernel/kernel/mmap.c:20-26 | the virtual pages of an area follow one another from its slot of the reserved table on |
| Vmm.AreaTranslates | kernel/kernel/mmap.c:13-27 | after the loop every page of the area translates and has the memory type asked for, and so does every page mapped earlier |
| Vmm.VmArea.constructor | kernel/kernel/vmm.c:108-111 | no slot used, nothing mapped |
| Vmm.VmArea.AssignMap | kernel/kernel/vmm.c:69-106 | writes one entry and returns the canonical address of its slot |
| Vmm.VmArea.AssignArea | kernel/kernel/mmap.c:20-26 | writes consecutive entries for consecutive frames and no other entry |
| Vmm.VmArea.MapArea | kernel/kernel/mmap.c:13-27 | with the repaired reservation: every page ever mapped keeps translating, with the memory type asked for, over any run; the slots just taken hold the frames of the area with the bits of that type; the call panics exactly when the slots run out, whatever the address |
| Vmm.VmArea.MapAreaAsWritten | kernel/kernel/mmap.c:13-27 | as written: the mapping and its memory type are right at first, and the table stays valid if and only if at most one page was asked for |
| Vmm.SecondPageLost | kernel/kernel/vmm.c:57-63 | as written, the second page of an area translates to the frame of whatever is mapped next, with that mapping's memory type |

## Left out

- Buddy.BuddyArea.Alloc: requests above 2^30 bytes, where line 108 shifts an `int` by 31 or more, which C leaves undefined; `Areas.SearchEnds` says what the bucket search does there.
- Buddy.BuddyArea.AllocAsWritten: the same limit on requests; the direct-map alias of the popped block is factored out (see `Vmm.PoppedAliasOutsideTree`).
- Buddy.BuddyArea.FreeAsWritten: as `Free`, a pointer that has a descriptor must be the start of a live block.
- Buddy.BuddyArea.Free: a pointer that has a descriptor must be the start of a live block; the source does not check, and a release of anything else has no meaning there.
- Buddy.BuddyArea.FindBkt: requests above 2^63, for which the loop does not terminate.
- Buddy.BuddyArea.constructor: area sizes are powers of two from 4 KiB to 1 GiB, what the `int` shifts define; the only caller passes 512 KiB.
- Init.BuddyAreaInit: `Buddy.BuddyArea.constructor` starts from a zeroed byte array of its own where the source uses the region the pool has just zeroed (`Reserved.ReservedPool.Alloc`); so does `Multiboot.ParseMmap`.
- Pages.InitMemMap: does not model the zeroing of the descriptors in the map; areas are shorter than 2^55 bytes, have at most 2^63 in use and end below 2^64 - 8.
- Pages.PageInit: the same bounds, with nothing in use yet; the kernel ends at most at 2^63, or so near 2^64 that rounding it up wraps.
- Pages.PageAllocator.PageAlloc: the byte count is unbounded where the source multiplies in 64 bits; one buddy per memory area, which is all the source creates; areas without a buddy are passed over, and `Scan.FindBuddy` says when the source meets one.
- Pages.PageAllocator.PageFree: an address that has a descriptor must be the start of a live block, as for `Buddy.BuddyArea.Free`.
- Scan.FindBuddy: stops where the source would read a buddy at NULL; what memory holds there is not modelled.
- Bootstrap.BootstrapPageAllocator: links must fit in the areas that get a buddy and in the pool, and the pool must lie apart from those areas.
- Slab.Cache.constructor: sets `index` and `entries_sz`, which `alloc_cache` never does, and takes the page's address as given (see `Vmm.SlabLookupPanics`).
- Vmm.VmArea.MapArea: physical addresses below 2^52 only, what an entry can hold; `Vmm.FrameBack` shows the limit is exact. The reserved table is the only one modelled, and with interrupts enabled nothing is mapped, as in the source.
- Vmm.VmArea.AssignMap: bit fields are joined with `+`, the fields being disjoint; the test of line 75 is left out because the low bits it looks at have just been cleared; the page-table entry is a record of the fields the source sets.
- Frames.Phys2Page: `addr + len` is taken not to wrap at 2^64, and a descriptor is named by its area and index, not by its address.
- One address space: the model does not distinguish a physical address from its direct-map alias, except in `Vmm.DirectMapRoundTrip` and `Vmm.PoppedAliasOutsideTree`.
- The walk of the reserved page table covers its last level; the three levels above are taken as set up.
- `page2phys`, which nothing calls, and the page counts that `page_init` prints.
- `kmalloc`, `kfree` and `ksize` beyond the size table and the object stack.
- The directive loop of `vprintf` and all console output: `fmtnum` returns its characters instead.
- Printing of Multiboot tags, and the other tag types.
- The fixed loops of `direct_map_everything` and `vmm_direct_map`; TLB flushes and `invlpg` are no-ops.
- Boot assembly, descriptor tables, interrupts, the local APIC and the other hardware access.
