# Opendfs core, modelled and proved in Dafny

This project models the hard core of Opendfs, a distributed file store written in C, and proves
what that code is relied on for. Each part below is a model of one piece of the program, in the
program's own form: pointer code as objects with `modifies` clauses, array code as array
algorithms, protocols as interleaved steps, arithmetic as functions.

`dafny verify dfyconfig.toml` checks everything.

## What is proved

**Shared-memory allocator** (`ShmemLevels`, `ShmemState`, `Queue`, `ShmemRings`, `Shmem`). A
segregated-fit allocator with an address-ordered block list, size-class free lists and an ordered
list of non-empty classes, all of them rings of links in one memory, changed by the list macros and
walked link by link. After any run of allocations, split allocations and frees the blocks tile the
arena, no two neighbours are free, every free block is filed under exactly its class, and the
counters balance; the error branches of the unlinking code are dead. An allocation succeeds exactly
when some free block fits and the request is not starved: a request of at most `min_size` looks only
at class 0 when that class is not empty. It takes the first fitting block of the least non-empty
class at or above its own, and every list is proved to be exactly as that leaves it.
`SmallRequestStarves` is a run of four calls on a new one-page segment in which a 16-byte request
fails with 3080 bytes free; larger requests never starve. Freeing all live blocks in any order gives
back the one original block.

**Red-black tree and timers** (`RBAlgebra`, `RBOrder`, `RBMemory`, `RBSplice`, `RBTree`,
`TimerQueue`, `TimerExpiry`, `EventTimer`). Insertion and deletion over nodes with parent links and
one shared sentinel, with both rebalancing loops. Trees and positions in them are values; `RBMemory`
says when the node memory represents a position, and each pointer write is proved against it. The
in-order sequence gains or loses exactly the one node, and the result is a red-black search tree of
logarithmic height. The root's own parent link is left open, as the program leaves it stale after
some deletions. On top of it, the expiry loop is proved for handlers that arm and cancel any timers,
due ones too: with the clock standing and timers armed for later, those fired are due ones, in order
and each once, and a due timer fires if and only if no handler before its turn cancelled or moved it
(`ExpiresExactly`); a handler that arms for now makes one call as long as it likes (`NoBound`).
Re-arming keeps the deadline within 300 ms except when the 64-bit difference, narrowed to `int` for
`abs`, looks small: around multiples of 2^32 ms and at odd multiples of 2^31 ms.

**Directory sort** (`EioOrder`, `EioBits`, `EioSort`). A radix pass with explicit stacks of 73
slots, then an insertion sort without a bounds check. The radix pass leaves entries 30 or more apart
in order, so the least entry is among the first 31, so the unguarded loop stops; the result is a
permutation in order of score and inode.

**DES and triple DES** (`DesWords`, `DesKeys`, `Des`, `DesStandard`). For any substitution tables
and subkeys, the cipher is the one of FIPS 46-3 given by the tables IP and E and sixteen rounds
(`DesIsStandard`), although the program permutes by swaps of bit groups and keeps both halves
rotated; decryption undoes encryption; triple DES with the program's key arrays is encrypt, decrypt,
encrypt, as in FIPS 46-3, although the program fuses the three passes.

**Datanode block path** (`BlockWrite`, `BlockRead`) and **chain output** (`ChainSpec`, `ChainLoss`,
`ChainOut`). Byte streams under arbitrary chunking, short writes, interruptions and retries;
transfers come to their end if every turn brings something. Two things the output code does wrong
are shown with exact conditions. Packing merges two links when they start at the same address, which
is always wrong; distinct starts are not enough to avoid it, because a partial write moves a link's
start. A chain is packed right at every stage of its sending if and only if no link starts inside
the one before it less than the limit from its end (`ApartExact`). And an empty memory link in front
of a file link can make the file link disappear from the returned chain: some kernel makes a call
lose bytes if and only if the last memory link before the first file link is empty, bytes follow it,
and fewer bytes than the limit stand before it (`LossExact`); with none before it every kernel does.
Memory chains lose nothing. A read of 2^32 bytes ends well with nothing sent (`FourGigabytes`), as
the length is narrowed to 32 bits.

**Connection lending** (`ConnPool`, `CommonPool`) and the **accept lock** (`AcceptLock`) as
interleavings of single steps. Lent connections find their way back: once all are released, what a
pool is owed is on the common list (`AllHome`). For any number of listening sockets, only the lock
holder watches them, except after a step that leaves some behind: an `event_add` that fails behind
the first socket, or an `event_delete` that fails at the end of a pass, both followed by the release
of the lock. That condition is exact: after a run without such a step, two threads can come to watch
one socket with nothing else going wrong if and only if the next step is one (`ExclusionExact`). The
first kind needs two sockets (`HalfAdded`), the second one (`NotDeleted`). Once the quit flags are
up, a thread never tries for the lock again (`QuitForGood`).

**Slabs** (`Slabs`), **calendar** (`GmTime`), **base64** (`Base64`), **percent-escaping** (`Uri`),
**primes** (`Primes`) and **logarithms** (`Log2`). Class search fails for a size a table was made
for exactly with two power classes and a size strictly between them, as 1500 between 1024 and 2048
(`SizeHole`); the class found is the least that holds the request except in the rounding of a linear
class. Freeing a chunk reports an error, and leaves the count of used bytes too high by its size,
exactly when the chunks still in use and those refused before hold fewer bytes than a chunk header:
so always for the first that is the only one (`OnlyChunk`). An allocation fails only after the
allocator below refused before and after each recovery, with nothing left to hand back.
`time_gmtime` is right exactly for times from 0 to 2^32 - 1. Unescaping undoes escaping exactly if
the table escapes `%` or the string has none; the `refresh` table does not escape it, contrary to
its comment.

Where code and comments disagree the model follows the code. Clocks, the kernel, the network, the
disk and the quit flags are parameters: scripts of outcomes that may be anything.

## Model

| member | source | states |
|---|---|---|
| `Log2.DfsLog2` | src/core/dfs_math.c:581-597 | the rounded base-2 logarithm: 2^i <= x < 2^(i+1) rounding down, 2^(i-1) < x <= 2^i rounding up, zero for zero |
| `Log2.BitTrick` | src/core/dfs_math.c:585-588 | x & (x - 1) is zero exactly for powers of two |
| `Log2.Rounding` | src/core/dfs_math.c:581-597 | rounding up adds one to the floor exactly off the powers of two |
| `Queue.Init` | src/core/dfs_queue.h:14-17 | an initialised head is an empty ring |
| `Queue.IsEmpty` | src/core/dfs_queue.h:19-20 | true exactly for the empty ring |
| `Queue.InsertHead` | src/core/dfs_queue.h:40-46 | the element becomes the first of the ring, the others keep their order |
| `Queue.InsertTail` | src/core/dfs_queue.h:48-54 | the element becomes the last of the ring |
| `Queue.InsertBefore` | src/core/dfs_queue.h:56-62 | the element stands right before the given one |
| `Queue.InsertAfter` | src/core/dfs_queue.h:64-70 | the element stands right after the given one |
| `Queue.Remove` | src/core/dfs_queue.h:80-85 | the ring loses exactly that element |
| `Queue.SplitLink` | src/core/dfs_shmem.c:520-530 | the macro sequence of a block split, insert-before, remove, insert-after, puts the remainder right behind the block |
| `ShmemRings.Rings.constructor` | src/core/dfs_shmem.h:67-103 | every list head and every entry is a link of its own |
| `ShmemRings.Rings.InitAll` | src/core/dfs_shmem.c:229-266 | all rings are empty |
| `ShmemRings.Rings.FileFirst` | src/core/dfs_shmem.c:392 | the block comes first on the ring of its class; every other ring of the segment is as it was |
| `ShmemRings.Rings.Unfile` | src/core/dfs_shmem.c:312 | the block leaves the ring of its class; every other ring is as it was |
| `ShmemRings.Rings.AddAvail` | src/core/dfs_shmem.c:363-388 | the class is linked before the next larger one or last; every other ring is as it was |
| `ShmemRings.Rings.DropAvail` | src/core/dfs_shmem.c:330 | the class leaves the ring of non-empty ones; every other ring is as it was |
| `ShmemRings.Rings.SplitBlock` | src/core/dfs_shmem.c:522-530 | the new block is linked right behind the split one; every other ring is as it was |
| `ShmemRings.Rings.DropBlock` | src/core/dfs_shmem.c:703 | the block leaves the block list; every other ring is as it was |
| `ShmemLevels.InsertIndexBounds` | src/core/dfs_shmem.c:103-124 | a block's class is the one whose size range contains it, for linear and exponential levels |
| `ShmemLevels.AllocIndexBounds` | src/core/dfs_shmem.c:70-101 | a request above the minimum lies above the lower bound of the class below its own and at most at that of its own |
| `ShmemLevels.HighClassFits` | src/core/dfs_shmem.c:70-124 | every block filed at or above the request's class fits the request |
| `ShmemLevels.LowClassTooSmall` | src/core/dfs_shmem.c:70-124 | for requests above the minimum, no block filed two or more classes below fits |
| `ShmemLevels.LowClassSmaller` | src/core/dfs_shmem.c:103-124 | a block of a lower class is smaller than any of a higher class |
| `ShmemState.RunTiles` | src/core/dfs_shmem.c:509-538 | consecutive blocks of the order list adjoin by address without gap or overlap |
| `ShmemState.BlocksDisjoint` | src/core/dfs_shmem.c:509-538 | two distinct blocks, headers included, never overlap |
| `ShmemState.Conservation` | src/core/dfs_shmem.c:235-268 | allocated sizes plus free sizes plus one header per block make up the arena |
| `ShmemState.RequestedBelowUsed` | src/core/dfs_shmem.c:509-538 | requested bytes never exceed used bytes |
| `ShmemState.AllFreeIsOneBlock` | src/core/dfs_shmem.c:680-733 | an arena without allocated blocks is one block of the original size |
| `ShmemState.ExhaustedMeansAllocated` | src/core/dfs_shmem.c:416-422 | the top index reads exhausted exactly when every block is allocated |
| `ShmemState.TopHoldsLargest` | src/core/dfs_shmem.c:554-607 | a largest block of the top class list is a largest free block of the whole arena |
| `ShmemState.ServeAtOrAbove` | src/core/dfs_shmem.c:426-447 | a non-empty list at or above the request's class serves it, unless it is starved |
| `ShmemState.ServeTop` | src/core/dfs_shmem.c:449-461 | when the request's class is at or above the top one, the top list serves it if any block of the arena fits, unless it is starved |
| `ShmemState.CarveKeepsShape` | src/core/dfs_shmem.c:509-538 | splitting a free block keeps the tiling and no-two-free-neighbours |
| `ShmemState.FreeKeepsShape` | src/core/dfs_shmem.c:680-733 | coalescing with both neighbours keeps the tiling and no-two-free-neighbours |
| `ShmemState.StepsMerge` | src/core/dfs_shmem.c:680-733 | absorbing next and then previous neighbour amounts to one merge of the run |
| `ShmemState.FreedIsGone` | src/core/dfs_shmem.c:657-733 | after a free its address is live no more and every other live address still is |
| `ShmemState.CarvedIsLive` | src/core/dfs_shmem.c:509-538 | after an allocation exactly the new address joins the live ones |
| `ShmemState.CarvedExact` | src/core/dfs_shmem.c:509-538 | what is handed out is exactly the request, a free block of at least the threshold behind it, or the whole block when the rest would be smaller |
| `ShmemState.ChosenOnce` | src/core/dfs_shmem.c:424-461 | there is one class a request can be served from by that rule |
| `Shmem.Allocator.RemoveFree` | src/core/dfs_shmem.c:295-336 | exactly the block leaves its class list, an emptied class leaves the available list, the top index follows; the error branches are dead; the rings follow |
| `Shmem.Allocator.InsertFree` | src/core/dfs_shmem.c:338-393 | exactly the block comes first on the list of its clipped class, a new class enters the available list in order |
| `Shmem.Allocator.PickList` | src/core/dfs_shmem.c:424-461 | the least class with a non-empty list at or above the class of the request, or the largest such class if there is none |
| `Shmem.Allocator.FirstFit` | src/core/dfs_shmem.c:474-499 | the first fitting block of that list, found exactly if there is one |
| `Shmem.Allocator.Take` | src/core/dfs_shmem.c:501-538 | what becomes of the headers, the block list and the class lists; the counters move |
| `Shmem.Allocator.Alloc` | src/core/dfs_shmem.c:395-539 | succeeds exactly for a non-empty request that some free block fits and that is not starved by class 0; then the block is the first fitting one of the least non-empty class at or above that of the request (of the largest if there is none), and headers, block list and class lists are exactly as carving it leaves them; a failure changes nothing but a counter |
| `Shmem.Allocator.GetMaxSt` | src/core/dfs_shmem.c:554-607 | a globally largest free block, the first such of the last class, or exhausted |
| `Shmem.Allocator.SplitAlloc` | src/core/dfs_shmem.c:609-655 | takes a globally largest free block whole, the first such of the last class, and fails exactly if none is at least the required minimum |
| `Shmem.Allocator.AbsorbNext` | src/core/dfs_shmem.c:684-705 | a free right neighbour is unlinked and swallowed |
| `Shmem.Allocator.AbsorbPrev` | src/core/dfs_shmem.c:708-730 | a free left neighbour swallows the block |
| `Shmem.Allocator.Free` | src/core/dfs_shmem.c:657-734 | the block and its free neighbours become one free block, first on the list of its class, and every list is otherwise as it was; a null or free address is refused unchanged |
| `Shmem.Allocator.SetSplitThreshold` | src/core/dfs_shmem.c:43-53 | only the threshold changes |
| `Shmem.Allocator.constructor` | src/core/dfs_shmem.c:235-268 | a new arena is one filed free block |
| `Shmem.Allocator.FreeAll` | src/core/dfs_shmem.c:657-734 | freeing all live addresses in any order leaves exactly one block of the original size and zero counters |
| `Shmem.LevelsCoverMax` | src/core/dfs_shmem.c:155-191 | the number of classes reaches up to the maximum size |
| `Shmem.Create` | src/core/dfs_shmem.c:126-271 | parameter errors exactly as tested, else a valid arena of the page-rounded size |
| `Shmem.AnyRun` | src/core/dfs_shmem.c:395-734 | after any run of the three operations the state is valid and the live addresses are exactly those handed out and not freed |
| `Shmem.SmallRequestStarves` | src/core/dfs_shmem.c:426-432 | a run on a new segment in which a small request fails although a block of 3080 bytes is free |
| `RBAlgebra.UncleRedKeeps` | src/core/dfs_rbtree.c:59-68 | recolouring under a red uncle keeps the loop invariant and the items and moves two levels up |
| `RBAlgebra.InnerKeeps` | src/core/dfs_rbtree.c:71-75 | lining the cursor up with its parent keeps invariant and items |
| `RBAlgebra.OuterKeeps` | src/core/dfs_rbtree.c:77-79 | recolouring and turning the grandparent ends the red pair |
| `RBAlgebra.InsertDone` | src/core/dfs_rbtree.c:57-107 | leaving the loop and blackening the root gives a red-black tree |
| `RBAlgebra.RedSiblingKeeps` | src/core/dfs_rbtree.c:298-304 | a red sibling is turned into a black one, shortage and items kept |
| `RBAlgebra.PushUpKeeps` | src/core/dfs_rbtree.c:306-310 | a black sibling with black children turns red and the shortage moves up |
| `RBAlgebra.NearRedKeeps` | src/core/dfs_rbtree.c:313-319 | a red near nephew is turned into a red far one |
| `RBAlgebra.FarRedEnds` | src/core/dfs_rbtree.c:321-325 | a red far nephew ends the shortage |
| `RBAlgebra.DeleteDone` | src/core/dfs_rbtree.c:293-364 | blackening the cursor at the end gives a red-black tree |
| `RBAlgebra.HeightIsLogarithmic` | src/core/dfs_rbtree.c:34-108 | every red-black tree of n nodes has height at most 2 * floor(log2(n + 1)) |
| `RBOrder.Descend` | src/core/dfs_rbtree.c:156-171 | going left below a larger key and right otherwise keeps all earlier items not above and all later ones above the key |
| `RBOrder.InsertedItems` | src/core/dfs_rbtree.c:156-178 | a leaf hung where the descent ends keeps the in-order keys sorted |
| `RBMemory.LeftRotationAt` | src/core/dfs_rbtree.c:369-401 | the writes of a left rotation turn the represented tree into the rotated one, wherever it hangs |
| `RBMemory.RightRotationAt` | src/core/dfs_rbtree.c:403-434 | the same for a right rotation |
| `RBMemory.LinkLeaf` | src/core/dfs_rbtree.c:173-178 | the writes of an insertion hang a red leaf at the empty place |
| `RBSplice.SpliceAt` | src/core/dfs_rbtree.c:226-238 | unlinking a node that lacks a child puts its other subtree in its place, with the parent link set even on the sentinel |
| `RBSplice.SuccessorIn` | src/core/dfs_rbtree.c:240-281 | the writes for a node with two children leave the tree with the successor in its place, also when the successor is its own child |
| `RBSplice.DeletePlan` | src/core/dfs_rbtree.c:190-291 | the item leaves the sequence; the rest is red-black if the unlinked node was red, else short of one black node at one place |
| `RBTree.RedBlackTree.constructor` | src/core/dfs_rbtree.c:12-32 | an empty tree with a black sentinel |
| `RBTree.RedBlackTree.RotateLeft` | src/core/dfs_rbtree.c:369-401 | rotates the represented tree at the position, and nothing else |
| `RBTree.RedBlackTree.RotateRight` | src/core/dfs_rbtree.c:403-434 | the mirror image |
| `RBTree.RedBlackTree.InsertTimerValue` | src/core/dfs_rbtree.c:134-179 | hangs the node red where all earlier keys are not above and all later ones above its own |
| `RBTree.RedBlackTree.RecolourUncle` | src/core/dfs_rbtree.c:61-68 | the red-uncle case on the pointers |
| `RBTree.RedBlackTree.TurnBlackUncle` | src/core/dfs_rbtree.c:69-80 | the black-uncle case on the pointers, both sides |
| `RBTree.RedBlackTree.Rebalance` | src/core/dfs_rbtree.c:56-107 | the insertion loop terminates with a red-black tree of the same in-order items |
| `RBTree.RedBlackTree.Insert` | src/core/dfs_rbtree.c:34-108 | the tree stays a red-black search tree and its in-order sequence gains exactly the node, after the keys not above it |
| `RBTree.RedBlackTree.TurnRedSibling` | src/core/dfs_rbtree.c:298-304 | the red-sibling case on the pointers, both sides |
| `RBTree.RedBlackTree.TurnNearRed` | src/core/dfs_rbtree.c:313-319 | the near-nephew case on the pointers, both sides |
| `RBTree.RedBlackTree.TurnFarRed` | src/core/dfs_rbtree.c:321-325 | the far-nephew case on the pointers, both sides |
| `RBTree.RedBlackTree.Replenish` | src/core/dfs_rbtree.c:293-364 | the deletion loop terminates with a red-black tree of the same in-order items |
| `RBTree.RedBlackTree.Min` | src/core/dfs_rbtree.c:436-444 | the end of the left spine |
| `RBTree.RedBlackTree.First` | src/core/dfs_rbtree.c:436-444 | the first item in order |
| `RBTree.RedBlackTree.Choose` | src/core/dfs_rbtree.c:190-211 | the node itself if it lacks a child, else its successor; the program's other choice there is dead |
| `RBTree.RedBlackTree.MoveOut` | src/core/dfs_rbtree.c:225-281 | after unlinking and replacing, the memory represents the planned tree at the place of the shortage |
| `RBTree.RedBlackTree.DropRoot` | src/core/dfs_rbtree.c:213-223 | the deleted root's subtree becomes the tree |
| `RBTree.RedBlackTree.Delete` | src/core/dfs_rbtree.c:181-367 | for every node of a valid tree: the tree stays a red-black search tree, its in-order sequence loses exactly the node, the node is cleared |
| `RBTree.RedBlackTree.HeightBound` | src/core/dfs_rbtree.c:34-367 | no path of a valid tree of n nodes is longer than 2 * floor(log2(n + 1)) |
| `TimerQueue.KeptExactly` | src/core/dfs_event_timer.c:100-104 | exactly which differences the narrowed test takes for small, and that below 300 ms it is right |
| `TimerQueue.KeptThoughFar` | src/core/dfs_event_timer.c:100-104 | two differences of many days that it takes for small |
| `TimerQueue.DueExactly` | src/core/dfs_event_timer.c:31-35 | the due prefix of an ordered queue is exactly the items with key <= now |
| `TimerExpiry.StepSplits` | src/core/dfs_event_timer.c:72-116 | one cancelling or later arming on a queue of due and later items takes off the due item it cancels or moves, and nothing else of the due part |
| `TimerExpiry.SurvivingSub` | src/core/dfs_event_timer.c:21-48 | those that fire are a subsequence of the due ones |
| `TimerExpiry.FiresExactly` | src/core/dfs_event_timer.c:21-48 | a due item fires if and only if no handler that ran before its turn cancelled or moved it |
| `TimerExpiry.ExpiresExactly` | src/core/dfs_event_timer.c:14-49 | the same for the whole loop on any queue in order |
| `TimerExpiry.FiredDue` | src/core/dfs_event_timer.c:14-49 | what the loop fires is a subsequence of the due items, and none due is left |
| `TimerExpiry.AllFire` | src/core/dfs_event_timer.c:14-49 | all due items fire when handlers leave them alone |
| `TimerExpiry.NoBound` | src/core/dfs_event_timer.c:21-48 | a handler that arms its timer for now n times fires n + 1 times in one call |
| `EventTimer.Timers.constructor` | src/core/dfs_event_timer.c:4-12 | an empty queue |
| `EventTimer.Timers.Del` | src/core/dfs_event_timer.c:72-85 | the event is no longer set and exactly its item leaves the queue |
| `EventTimer.Timers.Add` | src/core/dfs_event_timer.c:87-116 | keeps or moves the deadline as tested; within 300 ms of the request exactly unless the timer was set, far, and looked near once narrowed |
| `EventTimer.Timers.ArmedOnce` | src/core/dfs_event_timer.c:107-115 | a set event stands in the queue exactly once, under its own key |
| `EventTimer.Timers.FindTimer` | src/core/dfs_event_timer.c:51-70 | the time to the earliest deadline; zero if and only if one is past; -1 exactly for no timers |
| `EventTimer.Timers.Expire` | src/core/dfs_event_timer.c:14-49 | for any clock readings and any timer operations of the handlers, fires and leaves exactly what the loop over the queue does, and marks the fired events; the loop ends once handlers stop arming for now |
| `EventTimer.Timers.ExpireSteady` | src/core/dfs_event_timer.c:14-49 | with the clock standing and timers armed for later: fired are due timers in order, each once, exactly those no earlier handler cancelled or moved; none due is left |
| `EventTimer.Timers.LazyTest` | src/core/dfs_event_timer.c:93-104 | the test for keeping a deadline, read off the queue |
| `EventTimer.FarRearm` | src/core/dfs_event_timer.c:87-116 | a set timer asked for 2^32 ms later stays where it is |
| `EioOrder.CmpIsKeyOrder` | src/cfs/cfs_eio.c:1550-1557 | the comparison is the order of score, then inode, and fits a signed char |
| `EioOrder.SplitCuts` | src/cfs/cfs_eio.c:1636-1648 | splitting a segment on its highest open bit puts nothing above anything behind it |
| `EioBits.SelectedExactly` | src/cfs/cfs_eio.c:1584-1606 | the bit list is exactly the mask bits, ascending |
| `EioBits.CoveredAgrees` | src/cfs/cfs_eio.c:1580-1582 | bits outside the masks do not tell entries apart |
| `EioSort.ListBits` | src/cfs/cfs_eio.c:1568-1607 | the array built is the sentinel and the selected bits |
| `EioSort.Partition` | src/cfs/cfs_eio.c:1627-1648 | a permutation of the segment with clear bits first |
| `EioSort.SplitStep` | src/cfs/cfs_eio.c:1636-1660 | one split leaves both halves open at the next listed bit, or the segment in order |
| `EioSort.SplitLeft` | src/cfs/cfs_eio.c:1625-1659 | the inner loop; pushes stay inside the stack arrays |
| `EioSort.RadixSort` | src/cfs/cfs_eio.c:1564-1663 | a permutation in which entries 30 or more apart are in order; ends, within 73 stack slots |
| `EioSort.CoarseLeast` | src/cfs/cfs_eio.c:1673-1674 | then the least of the first 31 entries is the least of all |
| `EioSort.FindMin` | src/cfs/cfs_eio.c:1668-1676 | a least entry of the whole array |
| `EioSort.MinToFront` | src/cfs/cfs_eio.c:1668-1682 | it is brought to the front |
| `EioSort.InsertOne` | src/cfs/cfs_eio.c:1690-1695 | the unguarded loop stops at index 0 at the latest; the prefix grows sorted |
| `EioSort.InsertionSort` | src/cfs/cfs_eio.c:1665-1698 | a sorted permutation |
| `EioSort.Sort` | src/cfs/cfs_eio.c:1700-1713 | a permutation sorted by the comparison, for every size |
| `DesWords.Swap4Twice` | src/core/dfs_math.c:263-266 | the bit swap with offset 4 undoes itself |
| `DesWords.Swap16Twice` | src/core/dfs_math.c:263-266 | the bit swap with offset 16 undoes itself |
| `DesWords.Swap2Twice` | src/core/dfs_math.c:263-266 | the bit swap with offset 2 undoes itself |
| `DesWords.Swap8Twice` | src/core/dfs_math.c:263-266 | the bit swap with offset 8 undoes itself |
| `DesWords.FinalInitial` | src/core/dfs_math.c:273-296 | the final permutation undoes the initial one |
| `DesWords.InitialFinal` | src/core/dfs_math.c:273-296 | the initial permutation undoes the final one |
| `DesWords.RoundTwice` | src/core/dfs_math.c:304-314 | a round applied twice restores the word, for any tables |
| `DesStandard.InitialIsTable` | src/core/dfs_math.c:273-286 | the five bit swaps and the rotations are the table IP of FIPS 46-3, both halves rotated by one |
| `DesStandard.RoundIsStandard` | src/core/dfs_math.c:304-314 | a round adds the exclusive or of the eight tables, table j at group j of the table E of the other half with its key bits added |
| `DesStandard.FeistelIsRounds` | src/core/dfs_math.c:464-471 | any number of rounds on the rotated words are as many rounds of the standard on the halves |
| `DesStandard.DesIsStandard` | src/core/dfs_math.c:451-472 | IP of the output is what sixteen rounds of the standard make of IP of the input, the halves exchanged |
| `Des.FeistelBack` | src/core/dfs_math.c:464-471 | any number of rounds is undone by the reversed subkey pairs from the exchanged words |
| `Des.ReadWrite` | src/core/dfs_math.c:319-327 | reading what was written gives the words |
| `Des.ByteOrder` | src/core/dfs_math.c:319-327 | the first byte is the most significant one of the first word |
| `Des.WriteRead` | src/core/dfs_math.c:319-327 | writing what was read gives the bytes |
| `Des.CryptBack` | src/core/dfs_math.c:451-472 | DES decryption undoes encryption for every block and subkeys |
| `Des.TripleIsThree` | src/core/dfs_math.c:528-566 | the fused 48 rounds are three passes of DES |
| `Des.Crypt3Back` | src/core/dfs_math.c:528-566 | triple DES is undone by the reversed 48 rounds |
| `Des.TripleDes` | src/core/dfs_math.c:482-566 | with the arrays of two or three keys, decryption undoes encryption, and encryption is encrypt, decrypt, encrypt |
| `Des.DesThere` | src/core/dfs_math.c:426-472 | setting the key and encrypting, then decrypting with the other array, gives the block back |
| `Des.TwoKeysThere` | src/core/dfs_math.c:482-566 | the same for two keys, and the ciphertext is encrypt, decrypt, encrypt |
| `Des.ThreeKeysThere` | src/core/dfs_math.c:506-566 | the same for three keys |
| `DesKeys.Context.SetKey` | src/core/dfs_math.c:426-437 | the decryption subkeys are the encryption ones in reverse pairs |
| `DesKeys.Context.Set2Keys` | src/core/dfs_math.c:482-504 | both arrays of 96, by thirds |
| `DesKeys.Context.Set3Keys` | src/core/dfs_math.c:506-526 | both arrays of 96, by thirds |
| `DesKeys.PairReverseAt` | src/core/dfs_math.c:432-436 | word k of the reversed order, both of a pair |
| `Primes.SmallDivisor` | src/core/dfs_math.c:608-614 | a composite number has a divisor below every i with i * i > x |
| `Primes.IsPrime` | src/core/dfs_math.c:599-617 | decides primality |
| `Primes.PrimeAbove` | src/core/dfs_math.c:619-630 | a prime exists above every number |
| `Primes.FindPrime` | src/core/dfs_math.c:619-630 | ends with the least prime not below x |
| `BlockWrite.Buffer.Shrink` | src/core/dfs_buffer.c:63-88 | the held bytes move to the front unchanged |
| `BlockWrite.Request.Fill` | src/datanode/dn_request.c:855-897 | received bytes are appended in order; as many come as the calls made bring, each successful one at least one byte; stops when full or blocked, fails exactly on end or error |
| `BlockWrite.Request.RecvBlock` | src/datanode/dn_request.c:830-916 | the same; then queues all held bytes to be written behind the first done ones |
| `BlockWrite.Request.WriteIo` | src/cfs/cfs_faio.c:232-251 | a prefix of them, of the length reported, lands in the file |
| `BlockWrite.Request.WriteComplete` | src/datanode/dn_request.c:918-968 | closes exactly on error or a short write; renames exactly when done >= header.len, and then the file is what was received |
| `BlockWrite.Serve` | src/datanode/dn_request.c:830-968 | over any chunking: a renamed block is the first done bytes sent, in order; and if the peer sends header.len bytes, each turn brings some and nothing fails, the block is renamed after at most that many turns |
| `BlockRead.Task.SendFile` | src/cfs/cfs_faio.c:253-309 | sends the next bytes of the file without gap, exactly as many as the calls deliver; offset plus need stays; ends well exactly when nothing is needed, and with an error exactly when the last call failed or sent nothing |
| `BlockRead.DeliveryFails` | src/cfs/cfs_faio.c:269-305 | a turn ends with an error if and only if its last call failed, or reported success without sending a byte |
| `BlockRead.CalmDelivers` | src/cfs/cfs_faio.c:281-286 | interrupted calls change neither the bytes sent nor the result |
| `BlockRead.SendBlock` | src/datanode/dn_request.c:646-797 | across every pattern of interruptions the peer gets file[start..]; all that was asked exactly if the length is a 32-bit size; if the file has the bytes and each turn sends some, it ends well after at most as many turns |
| `BlockRead.FourGigabytes` | src/datanode/dn_request.c:646-797 | a read of 2^32 bytes ends well with nothing sent |
| `ChainSpec.AdvanceBytes` | src/core/dfs_chain.c:296-332 | advancing by n bytes leaves the bytes after the first n |
| `ChainSpec.PackCarries` | src/core/dfs_sysio.c:506-556 | without a merge the vector carries exactly the next bytes of the chain, within the limit |
| `ChainSpec.MergeIsWrong` | src/core/dfs_sysio.c:539-548 | a merge puts a wrong byte into the vector |
| `ChainSpec.PackExact` | src/core/dfs_sysio.c:506-556 | right for every memory content exactly if no merge happens |
| `ChainSpec.ApartExact` | src/core/dfs_sysio.c:258-370 | the vector carries the next bytes at every stage of sending, whatever memory holds, if and only if no link starts inside the one before it less than the limit from its end |
| `ChainSpec.LinesUp` | src/core/dfs_sysio.c:539-548 | two links with distinct starts that merge once five bytes are sent |
| `ChainLoss.PackTotal` | src/core/dfs_sysio.c:506-556 | the vector holds as many bytes as are counted, none from behind the first file link |
| `ChainLoss.PackFull` | src/core/dfs_sysio.c:506-556 | packing stops only at the limit, at the last of 32 slots, or with every byte before the first file link packed |
| `ChainLoss.CalmSends` | src/core/dfs_sysio.c:292-367 | interrupted calls change neither the bytes taken nor how the call ends |
| `ChainLoss.TakesSome` | src/core/dfs_sysio.c:292-367 | bytes are taken if and only if some precede the first file link, the limit is not reached and the first uninterrupted call takes some |
| `ChainLoss.EmptyPack` | src/core/dfs_sysio.c:308-314 | nothing is packed exactly if no byte precedes the first file link |
| `ChainLoss.AdvanceHidden` | src/core/dfs_chain.c:296-332 | sending memory bytes does not change whether bytes are hidden behind an empty link |
| `ChainLoss.DroppedWasHidden` | src/core/dfs_sysio.c:292-367 | whatever the kernel does, a call that drops bytes was given a chain that hides some, took all before them and stayed below the limit |
| `ChainLoss.HiddenGetsDropped` | src/core/dfs_sysio.c:292-367 | a kernel that takes all it is offered makes the call drop them |
| `ChainLoss.LossExact` | src/core/dfs_sysio.c:258-370 | some kernel makes a call drop bytes if and only if bytes are hidden and fewer than the limit precede them |
| `ChainLoss.DroppedAtOnce` | src/core/dfs_sysio.c:308-314 | with a memory head and no memory byte every kernel makes the call drop what there is |
| `ChainLoss.FileDropped` | src/core/dfs_sysio.c:308-314 | an empty memory link and a file of ten bytes: the file is dropped by every kernel |
| `ChainLoss.NoneHiddenExact` | src/core/dfs_sysio.c:258-370 | no stage of sending can lose a byte if and only if no part of the chain hides one |
| `ChainOut.PackChain` | src/core/dfs_sysio.c:506-556 | the array filled is the specified vector |
| `ChainOut.WriteUpdate` | src/core/dfs_chain.c:296-332 | the returned links stand for the bytes after those sent |
| `ChainOut.WritevIovs` | src/core/dfs_sysio.c:558-598 | retries interruptions; what is taken is a prefix of what is offered; the answer is that of the first other outcome |
| `ChainOut.WritevChain` | src/core/dfs_sysio.c:258-370 | for every kernel the call ends as specified: bytes taken followed by bytes of the returned chain are the bytes given unless hidden bytes are dropped, so always for memory chains; never more than the limit; the returned chain is again packed right |
| `GmTime.MarchYearExact` | src/core/dfs_time.c:83-98 | the year guess is the March-based year or one more, and the correction settles it |
| `GmTime.MonthExact` | src/core/dfs_time.c:107-109 | the month and day formulas are exact for every day of the year |
| `GmTime.GmTimeExact` | src/core/dfs_time.c:60-137 | a valid date whose own day count, weekday and time of day are those of t modulo 2^32; right exactly for 0 <= t < 2^32 |
| `GmTime.NextDay` | src/core/dfs_time.c:60-137 | time 0 is Thursday, January 1, 1970, and 86400 seconds after any time is the same time of the next day |
| `ConnPool.StepKeeps` | src/core/dfs_conn_pool.c:108-251 | every step of every thread keeps the counter equations, no more free connections than the pool has, what is under way in the direction of change_n, and each connection in as many places |
| `ConnPool.RunKeeps` | src/core/dfs_conn_pool.c:108-251 | so does every interleaving |
| `ConnPool.Nearer` | src/core/dfs_conn_pool.c:108-163 | no step but lending takes change_n away from zero; a release keeps it if connections are owed to the pool and lowers it by one if the pool owes some |
| `ConnPool.TakesOwed` | src/core/dfs_conn_pool.c:194-239 | a pool takes the front of the common list: all it is owed, or all there is |
| `ConnPool.OnePlace` | src/core/dfs_conn_pool.c:108-251 | no connection is ever in two places |
| `ConnPool.Quiet` | src/core/dfs_conn_pool.c:108-251 | between calls free + used - change = total for each pool, and the common list is as long as minus all change_n and those in transit |
| `ConnPool.AllHome` | src/core/dfs_conn_pool.c:108-251 | once every connection is released, all that any pool is owed is on the common list |
| `ConnPool.GetsBack` | src/core/dfs_conn_pool.c:108-163 | a pool with an empty list then gets all its connections back with the next one |
| `ConnPool.StartOk` | src/core/dfs_conn_pool.c:13-76 | freshly initialised pools satisfy the equations |
| `CommonPool.List.Put` | src/core/dfs_conn_pool.c:179-189 | the connection becomes the head of the list |
| `CommonPool.List.Get` | src/core/dfs_conn_pool.c:191-239 | cuts off the first n connections or all, both parts properly ended |
| `CommonPool.Walk` | src/core/dfs_conn_pool.c:219-226 | the walk ends at the n-th connection and the one after it |
| `AcceptLock.StepKeeps` | src/datanode/dn_thread.c:115-227 | every single step of every thread keeps lock, owner and holder in agreement; it keeps the watching to the polling holder if and only if it leaves no socket behind |
| `AcceptLock.HolderOwns` | src/core/dfs_lock.c:429-504 | in every interleaving the named holder owns the lock; at the top of its loop a thread owns nothing |
| `AcceptLock.OneWatcher` | src/datanode/dn_thread.c:144-175 | for any number of sockets, in every run that leaves none behind at most one thread watches any, and that one holds the lock |
| `AcceptLock.LeftBehind` | src/datanode/dn_thread.c:126-175 | once a socket is left behind any other thread can come to watch the same one |
| `AcceptLock.ExclusionExact` | src/datanode/dn_thread.c:115-227 | after a run that left nothing behind, a step can lead to two threads on one socket, nothing else going wrong, if and only if it leaves a socket behind |
| `AcceptLock.HalfAdded` | src/core/dfs_conn_listen.c:260-308 | with two or more sockets an event_add that fails at the second puts two threads on the first |
| `AcceptLock.NotDeleted` | src/core/dfs_conn_listen.c:310-330 | with one socket already an event_delete that fails puts two threads on it |
| `AcceptLock.PassEnds` | src/datanode/dn_thread.c:126-175 | each own step brings a thread nearer the end of its pass; releasing never spins |
| `AcceptLock.QuitForGood` | src/datanode/dn_thread.c:126-134 | once the quit flags are up a thread at the top of its loop never tries for the lock again and watches nothing more |
| `AcceptLock.QuitReleases` | src/datanode/dn_thread.c:136-143 | a thread that finds them up just after it got the lock deletes its listening events, switches accepting off and releases the lock before it polls |
| `Slabs.MakeTable` | src/core/dfs_slabs.c:192-204 | the size table of a given number of classes |
| `Slabs.Create` | src/core/dfs_slabs.c:107-215 | each error exactly in its case; else as many classes as reach the largest size and no more |
| `Slabs.EverySizeHasClass` | src/core/dfs_slabs.c:29-106 | every size a table was made for has a class, except strictly between the two classes of a power table with the largest size twice the smallest |
| `Slabs.SizeHole` | src/core/dfs_slabs.c:76-104 | sizes from 1024 to 2048: a request of 1500 bytes has no class |
| `Slabs.Search` | src/core/dfs_slabs.c:76-104 | the binary search finds the class around a size strictly inside any table of three or more classes, and fails for two |
| `Slabs.LinearFits` | src/core/dfs_slabs.c:63-73 | the linear formula stays inside the table and fits; its class is the least that fits if and only if the class before does not hold the request in its rounding |
| `Slabs.ClsId` | src/core/dfs_slabs.c:29-106 | fails exactly for an empty or too large request or in the hole of two power classes; else the class holds the request, and is the least that does exactly outside the rounding of linear classes |
| `Slabs.Manager.Recover` | src/core/dfs_slabs.c:264-329 | hands back the first chunk of the least larger class that has one; else the chunks of smaller classes, largest class first, until they make up twice the size and none after that; or finds every other list empty |
| `Slabs.Manager.AskAgain` | src/core/dfs_slabs.c:369-387 | the allocator below is asked once at the start and once after each recovery; it refused each time but the last, whose answer is the chunk; the loop ends, and fails only after a last refusal with all lists empty |
| `Slabs.Manager.Alloc` | src/core/dfs_slabs.c:331-425 | the chunk is not in use and its own size holds the request; it is the first of its class list if that has one, else the first answer of the allocator below if usable, with nothing handed back; failure means that every answer was a refusal and every list is empty; used_size stays right |
| `Slabs.Manager.Free` | src/core/dfs_slabs.c:506-566 | the chunk goes on the list of its class; an error is reported, and used_size left too high by that chunk, if and only if the chunks still in use and those refused before hold fewer bytes than a link |
| `Slabs.OnlyChunk` | src/core/dfs_slabs.c:551-562 | freeing the only chunk in use, none refused before, always reports an error and leaves it counted |
| `Base64.EncodedLength` | src/core/dfs_string.c:976-1016 | four characters for every three bytes begun |
| `Base64.SymbolIsAlphabet` | src/core/dfs_string.c:976-1016 | the alphabet of table 1 of RFC 4648 |
| `Base64.QuadNumber` | src/core/dfs_string.c:976-1016 | four symbols are the base 64 digits of three bytes read as one number |
| `Base64.TestVectors` | src/core/dfs_string.c:976-1016 | five of the encodings listed in section 10 of RFC 4648 |
| `Base64.DecodeEncode` | src/core/dfs_string.c:976-1086 | decoding undoes encoding for every byte string (section 4 of RFC 4648) |
| `Base64.EncodeInto` | src/core/dfs_string.c:976-1016 | the buffer holds the encoding |
| `Base64.Scan` | src/core/dfs_string.c:1043-1054 | the characters before the padding, or an unknown one |
| `Base64.DecodeInto` | src/core/dfs_string.c:1018-1086 | accepts exactly the decodable strings and writes the decoding |
| `Uri.WhoEscapesPercent` | src/core/dfs_string.c:1237-1335 | four tables escape '%', the refresh table does not |
| `Uri.TablesExactly` | src/core/dfs_string.c:1237-1335 | exactly which bytes each of the five tables escapes |
| `Uri.TablesPlainHex` | src/core/dfs_string.c:1237-1335 | no table escapes a hexadecimal digit |
| `Uri.DigitOfHex` | src/core/dfs_string.c:1357-1372 | escapes are written with lower-case hexadecimal digits, and digits of either case read as their value |
| `Uri.EscapedLength` | src/core/dfs_string.c:1341-1355 | the escaped length is size plus twice the count |
| `Uri.RoundTrip` | src/core/dfs_string.c:1229-1513 | unescaping undoes escaping exactly if the table escapes '%' or the string has none |
| `Uri.CountEscapes` | src/core/dfs_string.c:1341-1355 | the counting pass gives the room needed |
| `Uri.EscapeInto` | src/core/dfs_string.c:1357-1372 | the buffer holds the escaped string |
| `Uri.UnescapeInto` | src/core/dfs_string.c:1375-1513 | the buffer holds what the state machine reads, for type 0 |

## Left out

- Address arithmetic that wraps around: sizes and addresses of the allocators are unbounded numbers.
- Block headers are a map from addresses in `Shmem`; the links in them are objects, one for each address.
- `dfs_shmem_calloc`, `dfs_shmem_release`, statistics copies and string duplication: easy members.
- EventTimer.Timers.Add: clock plus delay is an unbounded sum; signed 64-bit overflow, undefined in C, is not modelled. `abs` of the most negative `int` is taken to return it unchanged.
- EventTimer.Timers.Expire: the clock stands during one pass of the loop, and handlers act only through the timer operations, on events of their loop.
- `rbtree_insert_value` differs from the timer insertion only in the key type it compares.
- EioSort.Sort: for more than 60 entries the masks must cover the keys and have at least one bit set, as the program otherwise reads before its bit list; bytes of an entry are addressed by key bit, so the byte order probing is not modelled.
- Des.CryptBack: the key schedule, the weak-key table and the contents of the substitution tables (the tables S with the permutation P) are not modelled, subkeys and tables are arbitrary; nor is the length `gl_des_ecb_crypt` returns.
- Primes.FindPrime: numbers are unbounded, so the wrap-around of i * i is not modelled.
- BlockWrite.Serve: the header is read, the file is new and the buffer empty at the start; responses, timeouts and closing are not modelled beyond giving up.
- BlockRead.SendBlock: the response after the block and the write timeout are not modelled.
- ChainOut.WritevChain: requires that the chain is packed right at every stage, which `ChainSpec` shows to be exactly that no link starts inside the one before it less than the limit from its end; links share no buffer.
- `sysio_sendfile_chain`, `chain_output` and the other chain operations: the same reasoning again or easy members.
- ConnPool.StepKeeps: the critical sections under the common lock are single steps; the lock itself is the one of `AcceptLock`.
- AcceptLock.StepKeeps: memory is sequentially consistent, and event_add and event_delete may fail at any socket, also where the kernel could not; thread ids differ from both "none" values the program uses.
- Slabs.Manager.Alloc: of the statistics only used_size is modelled; `dfs_slabs_split_alloc` and releasing are not; free lists are sequences, and the allocator below never hands out a chunk it has not got back, as proved for `Shmem`.
- Uri.UnescapeInto: only type 0; the URI and redirect variants stop at or keep some characters.
- The namenode, the cluster protocol, sockets, epoll, signals, configuration and logging.
