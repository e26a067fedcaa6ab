# RT-Thread kernel objects and LCD rasterisers: a Dafny model

The project models the memory managers and the inter-thread communication objects of the RT-Thread kernel, the
rasterisers of the application's display driver and the kernel's number formatting, and proves what they keep.

* `SmallHeap`, `SmallMem`: the system heap (`mem.c`). `SmallHeap` says what each call does to the chain of blocks;
  the class in `SmallMem` does it in one array of words that holds headers and user data together.
* `FreeListHeap`, `MemHeap`: the memheap (`memheap.c`) in the same two parts. `BlockChain` and `UserData` are shared.
* `AlignedAlloc`: aligned allocation over the small heap.
* `MemPool`: pools of equal blocks with a free list in the block headers.
* `Ring`, `RtList`: circular doubly linked lists as sequences.
* `WaitList`: the threads suspended on an object, and the accounting that shows that no wakeup is lost.
* `Mailbox`, `MessageQueue`, `Event`, `Mutex`, `MutexSystem`: the objects of `ipc.c` as step systems. A stretch of code
  between disabling and enabling interrupts is one step; suspension, resumption and timeouts are steps of their own.
* `Raster`: Bresenham lines and circles as sequences of plotted points.
* `Format`: number formatting into a bounded buffer, and the parser that reads widths.

Each imperative object is a class whose methods are proved equal to a step function on values; the theorems about runs
are about those functions. Sizes and addresses are 32 bits wide and wrap where the source lets them; the heaps count
4-byte words. A precondition of the source that it does not check is a precondition here, and where it marks the edge
of a property an if-and-only-if lemma says so (`SmallHeap.ScanStopsIff`, `SmallHeap.AllocGivesAskedBytes`,
`SmallHeap.ReallocMeaning`, `AlignedAlloc.AlignedGivesAskedBytes`, `AlignedAlloc.BackPointerInside`,
`FreeListHeap.StrictTestTurnsAway`, `FreeListHeap.AllocGivesAskedBytes`, `FreeListHeap.ReallocGivesAskedBytes`,
`FreeListHeap.ReallocMeaning`, `FreeListHeap.RunKeeps`, `MutexSystem.LastRelease`, `Format.FormattedLength`,
`Format.OctalOnlyBelowEight`). What a call returns is said twice: by its step function, and outright by a lemma named
`...Meaning`.

Where the code and its comments or a reader's expectation differ, the model follows the code:

* A small heap block that shrinks by less than a header and the minimum is moved, not kept, by realloc.
* Sizes from 0xFFFF_FFFD to 0xFFFF_FFFF round up to zero. A small heap realloc to one of them frees the block and returns
  null (`SmallHeap.HugeReallocFrees`); a memheap raises it to the minimum, so that an allocation of 4 GB gives 12 bytes
  and an enlarging realloc cuts the block (`FreeListHeap.EnlargingCuts`); a pool of such blocks has blocks without data.
* A memheap realloc that asks for almost the whole 32-bit range, of a block with a free neighbour, is granted in place and
  overwrites the block's own header (`FreeListHeap.WrappingReallocBreaks`).
* Shrinking in place does not respect the minimum block size of the small heap; blocks are only never empty.
* `prev` of `heap_end` is not kept up to date, and nothing is claimed of it.
* The two updates of `lfree` in `plug_holes` have no effect: `lfree` never equals the items they test.
* A timeout does not lower the priority the owner of a mutex was given.
* Releasing a mutex sets the owner's priority to the one recorded for that mutex, so releases out of order can leave a
  thread boosted (`MutexSystem.NotRestored`) or, with another mutex still wanted, unboosted.
* Waiting threads of a memory pool are resumed in last-in, first-out order.
* The closing points of a circle list one point twice and, as a equals b there, still cover all eight symmetries.
* Base 8 is printed in hexadecimal, and an explicit precision of 0 prints no digits at all.

## Model

| member | source | states |
|---|---|---|
| `SmallHeap.AllocMeaning` | rt-thread/src/mem.c:279-404 | Allocation fails exactly when the request is zero, larger than the heap, or no free block anywhere fits; otherwise it takes the lowest-addressed block that fits, gives just the words needed or the whole block when less than a header and the minimum would be left, and disturbs no other |
| `SmallHeap.ScanStopsIff` | rt-thread/src/mem.c:285-314 | For every request the tests before the scan let through, those that round to zero included, the scan stops at `heap_end` if and only if the heap has at least the minimum size |
| `SmallHeap.ScanStuck` | rt-thread/src/mem.c:307-314 | Below the minimum size every such request keeps the scan at `heap_end`, whose next is itself, for any number of steps |
| `SmallHeap.AllocGivesAskedBytes` | rt-thread/src/mem.c:299-310 | The block given holds the bytes asked for if and only if rounding the size up does not wrap |
| `SmallHeap.FreeMeaning` | rt-thread/src/mem.c:512-556 | Freeing removes exactly the extent it is given |
| `SmallHeap.FreeUndoesAlloc` | rt-thread/src/mem.c:512-556 | Freeing a block straight after allocating it restores the whole chain, whether or not the block was split |
| `SmallHeap.ReallocMeaning` | rt-thread/src/mem.c:418-503 | A null result leaves the heap as it was if and only if the size is non-zero and at most 0xFFFF_FFFC; else the block is freed. For those sizes the block stays exactly when it has just the words asked for or more than a header and the minimum over, and then has just those words; null comes exactly when the size exceeds the heap, or the block does not stay and no free block fits; no third block changes |
| `SmallHeap.ReallocOfNull` | rt-thread/src/mem.c:431-448 | Realloc of null allocates, but gives nothing for sizes that round to zero |
| `SmallHeap.HugeReallocFrees` | rt-thread/src/mem.c:432-444 | Realloc of any held block to 0xFFFF_FFFD bytes returns null and the block is gone |
| `SmallHeap.PointerSurvivesAlloc` | rt-thread/src/mem.c:279-404 | A held pointer stays valid, with its size, across any allocation, and is never handed out again |
| `SmallHeap.RunKeeps` | rt-thread/src/mem.c:125-163 | After any run of calls the items tile the heap up to `heap_end`, no two neighbours are free, and `used` is at most `max` |
| `SmallHeap.RunCoalescesFully` | rt-thread/src/mem.c:125-163 | After any run, all blocks are free if and only if the heap is the one free block it started as, if and only if nothing is counted as used |
| `SmallHeap.RunMax` | rt-thread/src/mem.c:355-370 | `max` is the running maximum of the words in use, both copies of a moving block included |
| `SmallMem.SmallMem.constructor` | rt-thread/src/mem.c:178-241 | The initial headers hold one free item spanning the heap and the closing item |
| `SmallMem.SmallMem.PlugHoles` | rt-thread/src/mem.c:125-163 | Coalescing in place refines the specification; the two updates of `lfree` inside it are never reached |
| `SmallMem.SmallMem.FindFit` | rt-thread/src/mem.c:300-314 | The scan from `lfree` finds the first fit of the whole heap |
| `SmallMem.SmallMem.Alloc` | rt-thread/src/mem.c:279-404 | On one word array shared by headers and data: the new heap and the pointer are those of the specification, `lfree` is the lowest free item again, every word of every live block is untouched, and a failure writes nothing |
| `SmallMem.SmallMem.Free` | rt-thread/src/mem.c:512-556 | Likewise for freeing: the specified heap, and no data word of a remaining block changes |
| `SmallMem.SmallMem.Realloc` | rt-thread/src/mem.c:418-503 | Likewise for realloc, on the path that SmallHeap.ReallocMeaning says: the first min(old, new) words are copied, other live blocks keep every word, and a null result for a size that does not round to zero leaves all of memory as it was; a size that rounds to zero frees the block |
| `UserData.CopyBlock` | rt-thread/src/kservice.c:220-290 | The word copy of a move puts the source words at the destination and changes nothing else |
| `AlignedAlloc.MallocAlign` | rt-thread/src/kservice.c:1629-1666 | For a power-of-two alignment the address is aligned, the back pointer and the bytes asked for lie inside the block taken from the heap, and other blocks keep their data |
| `AlignedAlloc.FreeAlign` | rt-thread/src/kservice.c:1675-1681 | Frees exactly the block the back pointer names, keeping the heap invariant |
| `AlignedAlloc.AlignedPlace` | rt-thread/src/kservice.c:1636-1662 | The aligned address leaves room for the back pointer in front of it and for the whole size behind it |
| `AlignedAlloc.AlignedGivesAskedBytes` | rt-thread/src/kservice.c:1640-1644 | With the sizes wrapping in 32 bits, the bytes asked for fit in the block behind the aligned address if and only if neither the roundings nor their sum wrap |
| `AlignedAlloc.AlignAddressExact` | rt-thread/src/kservice.c:1646-1658 | The aligned address is the next multiple of the alignment strictly behind the block address |
| `AlignedAlloc.BackPointerInside` | rt-thread/src/kservice.c:1640-1662 | With the sizes wrapping in 32 bits, the back pointer goes inside the block if and only if the block reaches up to the aligned address, which it does whenever nothing wraps or the size alone rounds to zero |
| `AlignedAlloc.BackPointerOutside` | rt-thread/src/kservice.c:1640-1662 | A request whose sum wraps on a new heap, for which the back pointer goes behind the end of the block |
| `BlockChain.ExtentsDisjoint` | rt-thread/src/mem.c:337-353 | The extents of two live blocks never share a word |
| `BlockChain.NothingUsedOneBlock` | rt-thread/src/mem.c:125-163 | A chain without free neighbours and without used extents is a single free block |
| `FreeListHeap.AllocMeaning` | rt-thread/src/memheap.c:183-346 | For the words the request rounds to, at least the minimum: allocation fails exactly when they are not strictly below `available_size` or no free block fits; otherwise it takes the first entry of the free list that fits, and gives just those words or the whole block when less than a header and the minimum would be left |
| `FreeListHeap.AllocGivesAskedBytes` | rt-thread/src/memheap.c:192-195 | The block given holds the bytes asked for if and only if the size is at most 0xFFFF_FFFC; above that it rounds to zero and is raised to the minimum of 12 |
| `FreeListHeap.StrictTestTurnsAway` | rt-thread/src/memheap.c:200 | What the strict comparison costs: a request is refused although a block fits if and only if a single free block is left and is asked for exactly |
| `FreeListHeap.FreeMeaning` | rt-thread/src/memheap.c:597-724 | Freeing keeps the invariant and removes exactly the extent it is given |
| `FreeListHeap.FreeUndoesAlloc` | rt-thread/src/memheap.c:597-724 | Freeing straight after allocating restores the block chain |
| `FreeListHeap.ReallocMeaning` | rt-thread/src/memheap.c:361-588 | Realloc of a held block keeps the heap if and only if adding the minimum in its growth test does not wrap or the neighbour behind the block is used. The block stays exactly when it has the words the size rounds to, or a free neighbour behind it has, with its own, more than those and the minimum; null for a non-zero size leaves the heap as it was and comes exactly when the block does not stay and nothing can be allocated; without a wrap a block that stays has just those words unless it had no more than a header and the minimum over, and no third block changes |
| `FreeListHeap.ReallocOfNull` | rt-thread/src/memheap.c:371-386 | Realloc of null allocates, and realloc to zero frees |
| `FreeListHeap.FreedIsReused` | rt-thread/src/memheap.c:691-713 | The free list is last in, first out: a block that joins no left neighbour when it is freed is given for the next request that it has the words for |
| `FreeListHeap.RunMax` | rt-thread/src/memheap.c:286-294 | `max_used_size` is the running maximum of the words in use, headers and both copies of a moving block included |
| `FreeListHeap.ReallocGivesAskedBytes` | rt-thread/src/memheap.c:377-380 | A successful realloc gives the bytes asked for if and only if neither the rounding of the size nor the growth test wraps |
| `FreeListHeap.EnlargingCuts` | rt-thread/src/memheap.c:377-380 | Two calls on a new pool by which a realloc of 352 bytes to 0xFFFF_FFFE succeeds and leaves 12 |
| `FreeListHeap.GrowthBreaks` | rt-thread/src/memheap.c:430-470 | A growth whose test wraps is always granted and writes the header of the free neighbour over the header of the block itself |
| `FreeListHeap.WrappingReallocBreaks` | rt-thread/src/memheap.c:430-470 | Two legal calls on a new pool that end that way |
| `FreeListHeap.GrowthTestExactIff` | rt-thread/src/memheap.c:430 | The 32-bit growth test grants only growth that fits, for every room below the range, if and only if adding the minimum to the request does not wrap |
| `FreeListHeap.RunKeeps` | rt-thread/src/memheap.c:183-724 | All along a run the blocks tile the pool, no neighbours are free, every block but the last has the minimum of data, and the free list names each free block once and nothing else, if and only if no call of it is a realloc whose growth test wraps beside a free block |
| `FreeListHeap.RunCoalescesFully` | rt-thread/src/memheap.c:645-713 | After any run without such a wrap, everything is freed if and only if the pool is one listed free block and `available_size` is what it was at the start |
| `MemHeap.MemHeap.constructor` | rt-thread/src/memheap.c:74-150 | The words of a new heap hold one free item, the used tailer and the free list through its own header |
| `MemHeap.MemHeap.RemoveFree` | rt-thread/src/memheap.c:41-49 | Unlinking an item through its own links takes exactly that entry out of the free list |
| `MemHeap.MemHeap.Alloc` | rt-thread/src/memheap.c:183-346 | The circular block list, the free list and the counters in memory become those of the specification; no data word of a live block changes |
| `MemHeap.MemHeap.Free` | rt-thread/src/memheap.c:597-724 | Likewise for freeing, with both merges |
| `MemHeap.MemHeap.GrowItem` | rt-thread/src/memheap.c:430-485 | Growing in place moves the header of the free neighbour and keeps both lists |
| `MemHeap.MemHeap.CutItem` | rt-thread/src/memheap.c:516-586 | Cutting in place splits off, merges and lists the remainder |
| `MemHeap.MemHeap.Realloc` | rt-thread/src/memheap.c:361-588 | Likewise for realloc on all its paths: the first min(old, new) words are kept, new being the words the size rounds to and at least the minimum, other blocks keep every word, a null result for a non-zero size changes nothing |
| `RtList.Lists.Init` | rt-thread/include/rtservice.h:47-50 | A node becomes the head of an empty list and no other word changes |
| `RtList.Lists.InsertAfter` | rt-thread/include/rtservice.h:58-65 | The new node follows the given one in the ring; words of other lists are untouched |
| `RtList.Lists.InsertBefore` | rt-thread/include/rtservice.h:73-80 | The new node precedes the given one; before the head is the end of the list |
| `RtList.Lists.Remove` | rt-thread/include/rtservice.h:86-92 | The node leaves the ring, which keeps its other nodes in order, and becomes a ring of its own |
| `RtList.Lists.Len` | rt-thread/include/rtservice.h:107-118 | The traversal counts the nodes of the list |
| `RtList.Lists.IsEmpty` | rt-thread/include/rtservice.h:98-101 | True exactly for a list with only its head |
| `RtList.OtherListKept` | rt-thread/include/rtservice.h:86-92 | A list none of whose link words changed is still that list |
| `WaitList.Suspend` | rt-thread/src/ipc.c:121-168 | The loop puts the thread where the specification says, by arrival or by priority |
| `WaitList.SuspendSorts` | rt-thread/src/ipc.c:134-160 | By priority: the list stays sorted, the thread stands behind every one as urgent as itself, and no two others change places |
| `WaitList.SuspendJoins` | rt-thread/src/ipc.c:121-168 | With the FIFO flag the thread goes to the end of the list, otherwise to its place by priority |
| `WaitList.FirstComeFirstServed` | rt-thread/src/ipc.c:121-203 | However arrivals and resumptions alternate, threads of a FIFO object are resumed in the order of their arrival |
| `WaitList.WakeMostUrgent` | rt-thread/src/ipc.c:190-203 | In a list sorted by priority the thread resumed is as urgent as every waiting one, and the others stay in their order |
| `WaitList.TimeoutUndoesSuspend` | rt-thread/src/thread.c:127-156 | A thread that times out leaves the list as it was before it was suspended |
| `WaitList.RemovedSorted` | rt-thread/src/thread.c:127-156 | A thread that is resumed or times out leaves a sorted list sorted |
| `WaitList.WakeOneCovers` | rt-thread/src/ipc.c:190-203 | Offering one more thing and resuming the first waiting thread keeps every thing on offer covered by a resumed thread |
| `WaitList.EnterCovers` | rt-thread/src/ipc.c:2019-2074 | A running thread that takes one thing keeps the rest covered |
| `Mailbox.RunKeeps` | rt-thread/src/ipc.c:1986-2413 | Every run of sends, urgent sends, receives, timeouts and resets keeps the mailbox within its size and loses no wakeup on either side |
| `Mailbox.NobodyWaitsInVain` | rt-thread/src/ipc.c:2019-2101 | Once every resumed thread has run, a receiver waits only on an empty mailbox and a sender only on a full one |
| `Mailbox.FirstInFirstOut` | rt-thread/src/ipc.c:2080-2090 | Without urgent mail and resets, what was received and then what is inside is exactly what was sent, in order, under every interleaving |
| `Mailbox.MailConserved` | rt-thread/src/ipc.c:1986-2413 | Every mail sent has been received once, is inside once, or was dropped by a reset |
| `Mailbox.UrgentReceivedNext` | rt-thread/src/ipc.c:2178-2195 | Urgent mail is the next to be received and leaves the rest as it was |
| `Mailbox.SendMeaning` | rt-thread/src/ipc.c:2019-2101 | A send with room succeeds with or without time; without room one with time waits where the flag puts it and never fails, and one without time fails and never waits |
| `Mailbox.RecvMeaning` | rt-thread/src/ipc.c:2266-2347 | Likewise for a receive and an empty mailbox |
| `Mailbox.UrgentMeaning` | rt-thread/src/ipc.c:2159-2211 | An urgent send never waits: it fails exactly on a full mailbox |
| `Mailbox.ResetMeaning` | rt-thread/src/ipc.c:2381-2413 | Reset drops all mail and resumes everybody, and nobody resumed so looks again |
| `Mailbox.RingPrepend` | rt-thread/src/ipc.c:2178-2192 | Rewinding the out offset and storing puts a mail in front of the ring |
| `Mailbox.RingPop` | rt-thread/src/ipc.c:2328-2340 | Advancing the out offset takes the oldest mail off the ring |
| `Mailbox.Mailbox.OffsetsAgree` | rt-thread/src/ipc.c:2080-2096 | `in_offset` is `(out_offset + entry) % size` in every state |
| `Mailbox.Mailbox.Send` | rt-thread/src/ipc.c:1986-2115 | One critical section of a send refines the deque; the overflow branch is never reached |
| `Mailbox.Mailbox.Urgent` | rt-thread/src/ipc.c:2159-2211 | The urgent send refines the deque |
| `Mailbox.Mailbox.Recv` | rt-thread/src/ipc.c:2233-2363 | One critical section of a receive refines the deque |
| `Mailbox.Mailbox.Reset` | rt-thread/src/ipc.c:2381-2413 | Reset empties the deque and resumes everybody |
| `MessageQueue.RunKeeps` | rt-thread/src/ipc.c:2737-3263 | Under every interleaving, with both copies running unprotected, each node is in the free list, in the queue or with one call, the counts add up to `max_msgs`, queued nodes hold the bytes linked, and no wakeup is lost |
| `MessageQueue.ReceptionsFaithful` | rt-thread/src/ipc.c:3067-3168 | Every finished reception has as many bytes as the call asked for, or a whole message when it asked for more, and they are those of the message at the head of the queue when that call took it |
| `MessageQueue.ExactlyOnce` | rt-thread/src/ipc.c:3149-3174 | Each message that is taken is received exactly once or is still in the hand of exactly one receiver |
| `MessageQueue.DeliveredOnce` | rt-thread/src/ipc.c:2737-3263 | From an empty queue, each message is received, in a receiver's hand, queued and dropped as often, together, as it was linked |
| `MessageQueue.FirstInFirstOut` | rt-thread/src/ipc.c:2855-2867 | Without urgent messages and resets, messages are taken in the order they were linked |
| `MessageQueue.MessagesConserved` | rt-thread/src/ipc.c:2737-3263 | Every message linked is taken once, still queued once, or dropped by a reset |
| `MessageQueue.UrgentTakenNext` | rt-thread/src/ipc.c:2988-2996 | The message of an urgent call is the next to be taken |
| `MessageQueue.SendMeaning` | rt-thread/src/ipc.c:2756-2847 | A message too long fails; otherwise a call with a free node holds it to send just its message, one without waits if it has time and fails only if it has none |
| `MessageQueue.UrgentMeaning` | rt-thread/src/ipc.c:2958-2982 | An urgent send never waits |
| `MessageQueue.RecvMeaning` | rt-thread/src/ipc.c:3075-3168 | With a message queued the call holds the first, to copy the bytes asked for or a whole message; without one it waits if it has time and fails only if it has none |
| `MessageQueue.ResetMeaning` | rt-thread/src/ipc.c:3223-3263 | Reset frees every queued node and resumes everybody; calls that hold a node go on |
| `MessageQueue.CopyInContents` | rt-thread/src/ipc.c:2847-2852 | A byte stored by one sender disturbs no queued message and no other copy |
| `MessageQueue.MessageQueue.constructor` | rt-thread/src/ipc.c:2474-2525 | All nodes go on the free list, threaded through their links; the sizes are those computed from the pool |
| `MessageQueue.MessageQueue.Reserve` | rt-thread/src/ipc.c:2756-2847 | One critical section of a send, up to holding a node, refines the step |
| `MessageQueue.MessageQueue.ReserveUrgent` | rt-thread/src/ipc.c:2958-2982 | The urgent send takes a node or fails at once |
| `MessageQueue.MessageQueue.ClearNext` | rt-thread/src/ipc.c:2849-2850 | The unprotected store to the link of the sender's own node disturbs neither list |
| `MessageQueue.MessageQueue.CopyByteIn` | rt-thread/src/ipc.c:2851-2852 | One byte of the unprotected copy into a node |
| `MessageQueue.MessageQueue.Link` | rt-thread/src/ipc.c:2855-2897 | The node is linked behind the tail; head, tail and count follow the queue; the overflow branch is never reached |
| `MessageQueue.MessageQueue.LinkUrgent` | rt-thread/src/ipc.c:2988-3026 | The node is linked before the head |
| `MessageQueue.MessageQueue.Unlink` | rt-thread/src/ipc.c:3075-3165 | One critical section of a receive, up to holding a node |
| `MessageQueue.MessageQueue.CopyByteOut` | rt-thread/src/ipc.c:3167-3168 | One byte of the unprotected copy out of a node |
| `MessageQueue.MessageQueue.GiveBack` | rt-thread/src/ipc.c:3170-3197 | The node returns to the free list and one sender is resumed |
| `MessageQueue.MessageQueue.Reset` | rt-thread/src/ipc.c:3223-3263 | The loop moves every queued node to the free list; nodes in flight stay with their calls |
| `Event.WalkedStable` | rt-thread/src/ipc.c:1468-1513 | What the walk leaves waiting lacks, of the flags it ends with, some flag asked for with AND and every flag asked for with OR, although it clears flags as it goes |
| `Event.WalkedInTurn` | rt-thread/src/ipc.c:1468-1507 | Each thread of the list is resumed exactly when the threads before it have left on all of its flags with AND or any of them with OR, and receives those of its flags that they left on |
| `Event.WalkedSorted` | rt-thread/src/ipc.c:1468-1507 | The threads that stay keep their order |
| `Event.WalkedReceives` | rt-thread/src/ipc.c:1468-1507 | Every resumed thread receives a non-empty subset of what it asked for, all of it with AND, from flags that were on |
| `Event.WalkedConserves` | rt-thread/src/ipc.c:1499-1503 | The flags on before the walk are, without overlap, those on after it and those the clearing threads received |
| `Event.AtOnceAsLater` | rt-thread/src/ipc.c:1592-1622 | A receiver that need not wait takes and clears just what a resumed one would |
| `Event.SendMeaning` | rt-thread/src/ipc.c:1435-1524 | A flag that was on or is sent is on afterwards unless a resumed thread with CLEAR received it, and then it is off; every waiting thread stays or is resumed |
| `Event.RecvMeaning` | rt-thread/src/ipc.c:1560-1658 | Flags are returned at once exactly when all asked for are on, with AND, or any is, with OR: all of those that are on, and with CLEAR those asked for go off; otherwise the call fails without time and waits with it |
| `Event.ResetMeaning` | rt-thread/src/ipc.c:1706-1724 | Reset clears every flag and resumes everybody |
| `Event.RunKeeps` | rt-thread/src/ipc.c:1435-1726 | After any run no waiting thread is satisfied, and every resumed thread is owed a non-empty part of what it asked for |
| `Event.WaitingUnserved` | rt-thread/src/ipc.c:1435-1726 | After any run a thread waiting with AND lacks some flag it asked for, and one waiting with OR lacks every one |
| `Event.OwedUntilFinished` | rt-thread/src/ipc.c:1660-1680 | Whatever happens before a resumed thread runs, it returns the flags that the send gave it |
| `Event.EventObject.Scan` | rt-thread/src/ipc.c:1459-1513 | The loop over the list, taking threads out as it goes, is the specified walk; the EINVAL exit is never reached |
| `Event.EventObject.Send` | rt-thread/src/ipc.c:1435-1524 | Sending refines the step |
| `Event.EventObject.Recv` | rt-thread/src/ipc.c:1560-1658 | Receiving up to its end or to suspension refines the step |
| `Event.EventObject.FinishRecv` | rt-thread/src/ipc.c:1660-1680 | A resumed receiver returns a non-empty subset of the flags it asked for |
| `Event.EventObject.Reset` | rt-thread/src/ipc.c:1706-1724 | Reset clears the flags and empties the list |
| `Mutex.TakeSound` | rt-thread/src/ipc.c:937-1004 | Taking keeps: value 1, no owner and hold 0 coincide; waiting threads imply an owner who is not waiting. It fails as full exactly at 255 recursive takes |
| `Mutex.ReleaseSound` | rt-thread/src/ipc.c:1113-1182 | Releasing keeps the same, and succeeds exactly for the owner |
| `Mutex.TakeMeaning` | rt-thread/src/ipc.c:937-1004 | A hold more for the owner, up to 255; a free mutex is taken; of another thread's mutex a failure without time, and with time a place in the list by priority and the owner made as urgent |
| `Mutex.ReleaseMeaning` | rt-thread/src/ipc.c:1113-1182 | While the owner has more than one hold, one less and nothing else changes; the last hands the mutex to the first waiting thread with one hold, or frees it |
| `Mutex.RunDepth` | rt-thread/src/ipc.c:909-1193 | In every run a thread owns the mutex exactly while its successful takes, hand-overs to it included, outnumber its releases, and `hold` says by how many |
| `Mutex.LastHandsOver` | rt-thread/src/ipc.c:1113-1182 | Of as many releases as the hold count, whoever waits, none before the last gives the mutex up, and the last hands it over or frees it |
| `Mutex.NestedTakes` | rt-thread/src/ipc.c:937-1182 | As many releases as takes by one thread give a free mutex back, and its priority |
| `Mutex.RunKeeps` | rt-thread/src/ipc.c:909-1193 | Any number of threads, recursive takes and timeouts: the waiting list stays sorted, the owner is as urgent as every waiting thread and as it was itself, and everybody else runs at its own priority |
| `Mutex.ReleaseInherits` | rt-thread/src/ipc.c:1126-1165 | A release restores the priority of the thread that gives up the mutex; a new owner was waiting and is as urgent as everyone who was |
| `Mutex.RunFromFree` | rt-thread/src/ipc.c:736-757 | A new mutex, with every thread at its own priority, starts such a run |
| `Mutex.MutexObject.Take` | rt-thread/src/ipc.c:937-1004 | The method refines the step; its inner full branch is never reached |
| `Mutex.MutexObject.Release` | rt-thread/src/ipc.c:1113-1182 | The method refines the step; both its full branches are never reached |
| `MutexSystem.PriorityRestored` | rt-thread/src/ipc.c:958-1149 | Over any number of mutexes: in every run in which threads give up last the mutex they acquired first, a thread that owns none runs at its own priority |
| `MutexSystem.LastRelease` | rt-thread/src/ipc.c:958-1149 | A thread that comes to own a mutex, by taking it or by a hand-over, and later, whatever the others do in between, gives it up as its last one is then at its own priority if and only if it was at it when it came to own the mutex |
| `MutexSystem.AcquireRecords` | rt-thread/src/ipc.c:958-962 | Taken or handed over, a mutex records the priority its new owner has at that moment |
| `MutexSystem.NotRestored` | rt-thread/src/ipc.c:1124-1132 | A run with two mutexes released in acquisition order that leaves a thread without mutexes at a boosted priority |
| `MemPool.AllocMeaning` | rt-thread/src/mempool.c:319-407 | A block is given out only while free, and exactly when one is free; afterwards it and the blocks allocated before are the allocated ones |
| `MemPool.FreeMeaning` | rt-thread/src/mempool.c:415-465 | Exactly the freed block stops being allocated |
| `MemPool.FreeUndoesAlloc` | rt-thread/src/mempool.c:415-465 | Freeing the block just allocated gives the old pool |
| `MemPool.LastWaiterFirst` | rt-thread/src/mempool.c:354 | Waiting threads are resumed last in, first out |
| `MemPool.RunPartitions` | rt-thread/src/mempool.c:319-465 | After any run the blocks handed out and not yet returned and the blocks on the free list, each there once, divide the pool between them; and while a thread waits every free block has a resumed thread on its way |
| `MemPool.NeverHandedOutTwice` | rt-thread/src/mempool.c:383-398 | No block is handed out again before it comes back |
| `MemPool.BlocksApart` | rt-thread/src/mempool.c:116-126 | Blocks with their headers do not overlap and end inside the pool |
| `MemPool.MemPool.constructor` | rt-thread/src/mempool.c:89-136 | The pool has as many blocks as fit, and all are free in address order; each holds the block size asked for if and only if that is at most 0xFFFF_FFFC |
| `MemPool.MemPool.ThreadAll` | rt-thread/src/mempool.c:124-133 | The loop threads all blocks in order and ends the list |
| `MemPool.MemPool.Alloc` | rt-thread/src/mempool.c:332-407 | One critical section refines the step: the count is the length of the threaded list, the header of the block given names the pool, and no other word changes |
| `MemPool.MemPool.Free` | rt-thread/src/mempool.c:420-465 | The header says which pool the block is from; it is threaded to the front, and no other word changes |
| `Raster.DrawLine` | applications/lcd.c:370-462 | Plots exactly max(dx,dy)+1 points, the i-th being the rounded point of the line |
| `Raster.LineNear` | applications/lcd.c:407-461 | Every point is within half a pixel of the true line on the minor axis |
| `Raster.LineConnected` | applications/lcd.c:407-461 | Consecutive points are neighbours and never turn back |
| `Raster.LineEnds` | applications/lcd.c:370-462 | The first point is (x0,y0), the last is (x1,y1), and all lie in their bounding box |
| `Raster.RoundedIs` | applications/lcd.c:407-432 | The rounded point is i*m/n to the nearest integer, halves up |
| `Raster.DrawCircle` | applications/lcd.c:329-367 | The points drawn are exactly the octant points of the radius under all eight symmetries, the diagonal included; for radius 0 they are the centre |
| `Raster.PictureMeaning` | applications/lcd.c:329-367 | A point is drawn if and only if it is the centre displaced by an octant point under one of the symmetries |
| `Raster.OctantIsNearest` | applications/lcd.c:333-365 | An octant point (a,b) is one whose b is sqrt(R^2 - a^2) rounded to the nearest integer |
| `Raster.CircleTurn` | applications/lcd.c:347-353 | One turn keeps the value of the decision variable and the octant bounds |
| `Raster.CircleFits` | applications/lcd.c:331-353 | The decision variable and its intermediate values fit in an int |
| `Format.DigitsValue` | rt-thread/src/kservice.c:633-662 | The numeral of a number says the number, in base 10 and 16 |
| `Format.OctalOnlyBelowEight` | rt-thread/src/kservice.c:641-659 | A number printed for base 8 is right in octal if and only if it is below 8 |
| `Format.FormattedLength` | rt-thread/src/kservice.c:709-840 | The length is max(width, digits + sign) for every mix of flags if and only if the precision is not an explicit 0 |
| `Format.ReadsBack` | rt-thread/src/kservice.c:665-840 | What is printed in base 10 reads back as the magnitude for all flags, widths and precisions but an explicit 0, and nothing before it is a digit |
| `Format.SignedReadsBack` | rt-thread/src/kservice.c:709-840 | Printed with its sign a decimal number reads back as itself: a minus stands before the digits exactly when it is negative, a plus exactly when it is not and PLUS is set, a space with SPACE alone, and nothing otherwise; without the sign the digits give its 32 bits; only spaces follow |
| `Format.FieldParts` | rt-thread/src/kservice.c:682-840 | In base 10 and 16 a field is that sign, a numeral of the number with its letters in the case LARGE says, and spaces behind it with LEFT only |
| `Format.IntRange` | rt-thread/src/kservice.c:665-672 | skip_atoi gives a number itself exactly when an int can hold it |
| `Format.SkipAtoi` | rt-thread/src/kservice.c:665-672 | Stops at the first character that is no digit, with the 32-bit value of the digits before it |
| `Format.DigitsFit` | rt-thread/src/kservice.c:698-703 | The digits of a 32-bit number fit in the temporary buffer |
| `Format.Printer.DigitsOf` | rt-thread/src/kservice.c:742-749 | The temporary buffer holds the digits, last first |
| `Format.Printer.PrintNumber` | rt-thread/src/kservice.c:682-841 | However short the buffer, it receives exactly the characters of the formatted number that lie before its end, nothing else changes, and the position moves on by the full length |

## Left out

- SmallMem.SmallMem.constructor: the alignment of the start and end addresses is not modelled; the heap is given in whole words, at least the minimum size, and below the 32-bit limit.
- SmallMem.SmallMem.Realloc: contents are kept word by word, so the bytes of a last, partly used word are only covered as a whole.
- MemHeap.MemHeap.Realloc: the calls on which the source breaks the heap, a growth test that wraps beside a free block, are excluded; `FreeListHeap.ReallocMeaning` says that these are all.
- FreeListHeap.ReallocMeaning: after a growth test that wraps the model has the header where the source writes it, but not the counters, which wrap too.
- MemHeap.MemHeap.Alloc: the heap's semaphore, locked mode and the fallback to other heaps are not modelled.
- MemHeap.MemHeap.JoinItem: the source takes an item out of the block list and out of the free list in stores that alternate between the two; the model finishes one list before the other.
- AlignedAlloc.MallocAlign: the sum of the rounded size and alignment must not wrap; `AlignedAlloc.AlignedGivesAskedBytes` and `AlignedAlloc.BackPointerInside` say what happens when it does.
- UserData.CopyBlock: copies word by word; the alignment cases of rt_memcpy are not modelled.
- MemPool.MemPool.constructor: needs room for one block, for the source writes a null link into the last block whether there is one or not.
- MemPool.MemPool.Free: the pool named by the header is the pool of the call; several pools are not modelled at once.
- MessageQueue.MessageQueue.constructor: message and queue sizes must fit their 16-bit fields; each node's bytes are a sequence of their own, so that the distance between nodes in the pool is not modelled.
- MessageQueue.MessageQueue.CopyByteIn: the copies go byte by byte, the finest interleaving there is.
- Event.EventObject.Send: a 32-bit mask is the set of its bits; the width of the mask is not modelled.
- Mutex.MutexObject.Take: transitive inheritance is not provided by the code and not claimed.
- MutexSystem.PriorityRestored: base priorities do not change during a run.
- Format.Printer.PrintNumber: the format string parser around it is not modelled; RT_PRINTF_LONGLONG and RT_PRINTF_SPECIAL are not defined.
- Raster.DrawCircle: colours, the display window and the transfer of pixels are not modelled.
- WaitList.Suspend: lists of threads are sequences here; that the intrusive lists behave like sequences is proved in RtList.
- The clock: whether a thread has time left to wait is an argument of each pass; any value is allowed.
- Threads resumed by someone else than the object they wait on.
- Detaching and deleting objects, semaphores, signals, threads, timers and the scheduler: easy or outside the modelled files.
- Hooks, debug logging, memory tracing and the shell commands that print the state of the heaps.
- Interrupt nesting: a call made with interrupts disabled is one step.
