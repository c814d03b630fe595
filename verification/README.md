# Verification of the RT-Thread kernel and its event, Ethernet and formatting helpers

This project models the parts of the firmware that work by pointer surgery on shared state, and proves
what they keep in every run.  `dafny verify dfyconfig.toml` checks it.

Each component has two layers.  A reference layer gives every operation as a function on values (a chain of
blocks, a pool of nodes, a state machine with one step for each stretch of code that runs with interrupts
off) and proves the properties: invariants over all runs, isolation, round trips, refinement.  An imperative
layer has the fields, arrays, links and loops of the source in a class; each method is proved to change the
real fields exactly as its reference function says, so the properties hold for the fields as well.  How a call
ends (who is served, refused or made to wait, what is returned and what is given back) is stated in lemmas that
do not depend on how the reference function is written: `ReallocNull` and `ReallocRoom` for the heaps and the
modules `...Outcomes` for the rest.

| files | component |
|---|---|
| `Lists`, `QueueOrder` | lists without repetition; the order of a queue with urgent entries |
| `BlockChain` | headers that tile a range of memory; shared by the two heaps |
| `SmallMemChain`, `SmallMemImage`, `SmallMem`, `SmallMemTheorems` | the small-memory heap, `mem.c` |
| `DList`, `MemheapChain`, `Memheap`, `MemheapTheorems` | doubly linked rings and the memheap, `memheap.c` |
| `HeapContents` | what the blocks of both heaps hold over whole runs |
| `PageList`, `Pages`, `SlabZone`, `SlabSpec`, `SlabTheorems`, `SlabOutcomes`, `Slab` | the page and slab allocators, `slab.c` |
| `SchedSpec`, `SchedTheorems`, `SchedOutcomes`, `Scheduler`, `TwoLevelBitmap` | ready lists, bitmap and switching, `scheduler.c`, `thread.c` |
| `IpcList`, `Mutex`, `Event`, `Mailbox`, `NodeList`, `MessageQueue` | the objects of `ipc.c` |
| `MutexOutcomes`, `EventOutcomes`, `MailboxOutcomes`, `MessageQueueOutcomes` | how the calls on them end |
| `PackedEvents`, `EventPool`, `EventRuns`, `EventSets` | logical events that share kernel events, `os/` |
| `Ethernet` | the copy loops of `drv_eth.c` |
| `FormatSpec`, `FormatOutcomes`, `Format`, `MemCopy` | `rt_vsnprintf` and its helpers, `rt_memcpy` and `rt_memmove`, `kservice.c` |
| `Arith` | quotients and remainders |

Conventions.  Offsets and sizes of the two heaps are counted in units of RT_ALIGN_SIZE, four bytes, to which
both round every request; the rounding itself is modelled on 32 bits, with its wrap-around.  The constructor of
the small-memory heap asks for at least MIN_SIZE_ALIGNED, to which `rt_malloc` raises a size after its range
check.  Slab addresses are bytes from the page-aligned start of the heap; alignment is stated for any page at
which it begins.  Threads are named by numbers, and a smaller priority number is a higher priority.  A thread
that waits is resumed by a step of another thread, by a reset, or by a step `Expire` that stands for its timer;
it then runs again in a step of its own.

What the code does where one might expect something else, each stated and proved:

- `rt_malloc` of `mem.c` refuses a request that only an exactly fitting block at the end of the heap could
  serve, so a fresh heap cannot be filled by one request (`MallocNull`, `WholeHeapRefused`).
- `rt_realloc` of `mem.c` can fail when it is asked to make a block smaller (`ReallocNull`, `ShrinkFails`).
- A size above 2^32 - 4 wraps in RT_ALIGN to 0: `rt_malloc` and the memheap hand out a block that is too small
  (`MallocRoom`, `AllocRoom`, `HugeIsMinimum`, `HugeServed`), and `rt_realloc` frees the block (`ReallocFrees`).
- The two places where `plug_holes` moves `lfree` never do so in the calls that the allocator makes
  (`PlugHoles` leaves it where it is), because a freed block has been compared with `lfree` before.
- The memheap refuses a request for everything that is available (`AllocNull`, `WholePoolRefused`), and a
  free after an alloc restores all but the order of the free list (`AllocThenFree`, `OrderChanges`).
- A timeout of a mutex waiter does not take an inherited priority back from the owner
  (`ExpireTight` gives the exact condition, `TimeoutLeavesBoost` a run).
- A yield with nobody else ready is remembered (`YieldIsRemembered`).
- The comment of `slab.c` promises that every power-of-two request is aligned to its size and that a request
  for 0 bytes succeeds; beyond a page the first depends on the page that serves the request (`PowerAligned`
  gives the exact condition, `NotAlignedBeyondPage` a fresh heap), and the second is not what the code does
  (`MallocKeeps`).
- `%5s` cuts a longer text off (`TextWidth`), precision 0 leaves the digits of a number out (`NumberReadsBack`), and
  `%o` prints hexadecimal digits because `divide` knows the bases 10 and 16 only (`OctalIsHex`; `OddNumbers` has an
  instance of both).
- A frame that needs more buffers than the transmit ring has comes round and overwrites its own beginning
  (`DeliversWhole`, `FirstByteLost`); `Transmit` says which bytes are left.
- Freeing an event runs unlocked.  When `bits.reset` is interrupted between reading and writing, an event that is
  handed out meanwhile can lose its bit (`RunKept` says exactly when, `LostUpdate` is a run), and while
  its set is listed allocations then come to hand out a live event (`ComesAgain`), which they never do before
  (`RunDistinct`); a write that is out of date can also just leave a bit without an
  owner (`RunOwned`, `OwnerlessBit`).  A set can leave the list while an event handed out since the test lives in it
  (`RunListed`, `RunListedSince`, `DroppedWhileLive`).
- `rt_memcpy` delivers the source unchanged if and only if the destination does not begin inside it
  (`ByteCopyMoves`).

## Model

| member | source | states |
|---|---|---|
| SmallMemTheorems.RunWellFormed | rt-thread/src/mem.c:156-615 | In every run of malloc, realloc and free from a fresh heap the headers tile the heap exactly up to heap_end, no two neighbours are free, and used plus free units are mem_size_aligned + SIZEOF_STRUCT_MEM |
| SmallMemTheorems.RunIsolation | rt-thread/src/mem.c:421-615 | In every run a live block stays where it is, with its length, for as long as no operation is called on it |
| SmallMemTheorems.RunAllFreed | rt-thread/src/mem.c:552-615 | After any run, whatever the order of the frees: when no block is live the heap is one free block and nothing is counted as used |
| SmallMemTheorems.StepSafe | rt-thread/src/mem.c:272-615 | One call keeps the chain well formed, leaves every other live block as it is, and returns only a block that was not live before, unless it is the one it was given |
| SmallMemTheorems.MallocIsFirstFit | rt-thread/src/mem.c:305-378 | Although the search starts at lfree, the block returned is the lowest block of the whole heap that fits |
| SmallMemTheorems.MallocNull | rt-thread/src/mem.c:277-307 | NULL if and only if the size is 0 or above the heap size, or every free block that fits is one of exactly the requested size ending at heap_end |
| SmallMemTheorems.WholeHeapRefused | rt-thread/src/mem.c:291-307 | A fresh heap refuses the request that would exactly fill it, because the bound of the search loop is strict |
| SmallMemTheorems.MallocRoom | rt-thread/src/mem.c:289-300 | The block returned is live, and has room for the size asked for if and only if rounding that size up does not wrap around 32 bits |
| SmallMemTheorems.HugeServed | rt-thread/src/mem.c:289-300 | A fresh heap of forty bytes hands out a block of twelve bytes for 2^32 - 1 |
| SmallMemTheorems.ReallocNull | rt-thread/src/mem.c:421-515 | realloc of a live block returns NULL if and only if the size rounds to 0 or to more than the heap, or it is a different size, no header and minimum block can be cut off, and every free block that fits is one of exactly the requested size at heap_end; also when less is asked for |
| SmallMemTheorems.ReallocFrees | rt-thread/src/mem.c:431-443 | When realloc of a live block returns NULL, the block has been freed if and only if the size is 0 or above 2^32 - 4, where RT_ALIGN wraps to 0; otherwise the heap is as it was |
| SmallMemTheorems.HugeReallocFrees | rt-thread/src/mem.c:431-443 | A run in which realloc to 2^32 - 1 bytes frees the block and returns NULL |
| SmallMemTheorems.ReallocRoom | rt-thread/src/mem.c:421-515 | When realloc of a live block is not NULL: the block returned has room for the request and not for a further header and minimum block beside it; the pointer is the old one if and only if the old size is the one asked for or larger by more than a header and a minimum block, and then the size is exactly the one asked for; the units in use change by exactly the difference of the two blocks |
| SmallMemTheorems.MallocSnug | rt-thread/src/mem.c:316-369 | A block handed out has room for the request, or the minimum, and not for a further header and minimum block; all of it and its header count as used |
| SmallMemTheorems.CutIsGivenBack | rt-thread/src/mem.c:471-504 | In a heap of eighty bytes with a block of sixty nothing more can be had; after realloc to eight, forty bytes can |
| SmallMemTheorems.ReallocOfNull | rt-thread/src/mem.c:431-448 | For a null pointer realloc does what malloc does, if and only if the size does not wrap to 0 or malloc fails as well; for a size that wraps it returns NULL |
| SmallMemTheorems.ReallocOutside | rt-thread/src/mem.c:431-459 | A pointer outside the heap is handed back, unless the size rounds to 0 or to more than the heap |
| SmallMemTheorems.MoveIsTwoSteps | rt-thread/src/mem.c:505-515 | A realloc that moves the block is an allocation followed by a free |
| SmallMemTheorems.InterruptedMove | rt-thread/src/mem.c:505-515 | When other threads run between the allocation and the free of a move, and leave both blocks alone, the old block stays as it was and the new one, a different block, keeps the room that the copy needs |
| SmallMemTheorems.ShrinkFails | rt-thread/src/mem.c:471-515 | A run in which shrinking a block fails |
| SmallMemTheorems.MallocThenFree | rt-thread/src/mem.c:156-194 | Freeing what was just allocated restores the block chain, and with it lfree and used_mem |
| SmallMem.Heap.constructor | rt-thread/src/mem.c:204-257 | A fresh heap is one free block up to heap_end with no memory in use |
| SmallMem.Heap.Malloc | rt-thread/src/mem.c:272-410 | The header words after rt_malloc hold exactly the chain of exact first fit; lfree is the lowest free block, used_mem the sum of next - offset over the used blocks, max_mem the running maximum, and no payload word of a used block changes |
| SmallMem.Heap.Search | rt-thread/src/mem.c:305-311 | The loop from lfree finds the lowest fitting block, and fails exactly when there is none or only the exact one at heap_end |
| SmallMem.Heap.Take | rt-thread/src/mem.c:316-387 | The block found is marked used and split when the rest holds a header and a minimum block; counters and lfree follow |
| SmallMem.Heap.LinkRemainder | rt-thread/src/mem.c:329-348 | The remainder header is linked between block and successor; prev of heap_end is left alone; payloads are untouched |
| SmallMem.Heap.AdvanceLfree | rt-thread/src/mem.c:380-387 | The loop leaves lfree at the lowest free header, or at heap_end |
| SmallMem.Heap.PlugHoles | rt-thread/src/mem.c:156-194 | The freed block is joined with free neighbours on both sides, and lfree does not have to be moved for that |
| SmallMem.Heap.PlugForward | rt-thread/src/mem.c:165-180 | A free right neighbour disappears into the block and lfree moves off it |
| SmallMem.Heap.PlugBackward | rt-thread/src/mem.c:182-193 | The block disappears into a free left neighbour and lfree moves off it |
| SmallMem.Heap.Free | rt-thread/src/mem.c:552-615 | The chain afterwards is the old one with the block released and joined; counters and lfree agree; a null pointer or one outside the heap changes nothing |
| SmallMem.Heap.Realloc | rt-thread/src/mem.c:421-519 | The first min(old, new) words survive in place or moved; a failed call leaves the old block untouched unless the size rounds to 0, as 0 and the sizes above 2^32 - 4 do; no other used block changes, the accounting still holds, and max_mem records the peak between the inner allocation and the release |
| SmallMem.Heap.Trim | rt-thread/src/mem.c:471-504 | Shrinking in place cuts off a free block, joins it with a free right neighbour, and keeps the payload that remains |
| SmallMem.Heap.Move | rt-thread/src/mem.c:507-515 | Moving allocates, copies and frees, in that order, and only frees when the allocation succeeded |
| SmallMem.Heap.Copy | rt-thread/src/mem.c:509-513 | The copied words equal the source and nothing else changes |
| BlockChain.PlugWellFormed | rt-thread/src/mem.c:156-194 | Joining repairs the only two places where free blocks can touch after a free |
| BlockChain.BlocksDisjoint | rt-thread/src/mem.c:329-347 | In a well formed chain two different live blocks share no unit |
| BlockChain.SplitThenJoin | rt-thread/src/mem.c:316-347 | Splitting a free block and releasing the first part gives the old chain |
| SmallMemChain.UsedBelowLowest | rt-thread/src/mem.c:380-386 | Every block below the lowest free one is used |
| SmallMemChain.UsedAlloc | rt-thread/src/mem.c:349-369 | used_mem grows by size + header when the block is split and by the whole block otherwise |
| SmallMemChain.LowestFreePlug | rt-thread/src/mem.c:174-190 | Joining free blocks does not change which block is the lowest free one |
| SmallMemImage.UnlinkedImage | rt-thread/src/mem.c:178-192 | Writing the two links of plug_holes turns the header words of the old chain into those of the chain without the block |
| SmallMemImage.LinkedImage | rt-thread/src/mem.c:332-348 | Writing the remainder header and two links turns the header words into those of the split chain |
| MemheapTheorems.RunInv | rt-thread/src/memheap.c:181-660 | In every run the ring of blocks is in address order, tiles the pool and has no two free neighbours, and the free list holds exactly the free blocks, each once |
| MemheapTheorems.RunIsolation | rt-thread/src/memheap.c:338-660 | In every run a live block stays where it is, with its length, for as long as no operation is called on it |
| MemheapTheorems.RunAllFreed | rt-thread/src/memheap.c:557-660 | After any run in which everything was freed, in any order, the pool is in its initial state with all of it available |
| MemheapTheorems.InterruptedMove | rt-thread/src/memheap.c:463-474 | When other threads run between the allocation and the free of a move, and leave both blocks alone, the old block stays as it was and the new one, a different block, keeps the room that the copy needs |
| MemheapTheorems.StepSafe | rt-thread/src/memheap.c:181-660 | One call keeps the invariant and every other live block, and returns only a block that was not live before, unless it is the one it was given |
| MemheapTheorems.AllocNull | rt-thread/src/memheap.c:198-228 | NULL if and only if no free block fits or the request asks for everything that is available |
| MemheapTheorems.AllocIsFirst | rt-thread/src/memheap.c:204-228 | The block handed out is the first of the free list that is large enough |
| MemheapTheorems.AllocSnug | rt-thread/src/memheap.c:231-302 | A block handed out has room for the request and for less than a header and a minimum block more |
| MemheapTheorems.ReallocNull | rt-thread/src/memheap.c:348-479 | realloc of a live block returns NULL if and only if the size is 0, or more is asked for than the block has, the right neighbour is used or too small, and no other block can be had: none is large enough, or the request is all that is available |
| MemheapTheorems.ReallocRoom | rt-thread/src/memheap.c:367-547 | When realloc of a live block is not NULL: the block returned has room for the request and for at most a header and a minimum block more, and the pointer is the old one if and only if no more is asked for than the block has or the right neighbour serves the growth |
| MemheapTheorems.ReallocFails | rt-thread/src/memheap.c:348-479 | When it is NULL the pool is as it was, except that size 0 frees the block |
| MemheapTheorems.ReallocOfNull | rt-thread/src/memheap.c:348-362 | For a null pointer realloc does what alloc does, except for size 0 |
| MemheapTheorems.WholePoolRefused | rt-thread/src/memheap.c:198-228 | A fresh pool does not hand out its whole free space, although one free block would hold it |
| MemheapTheorems.AllocRoom | rt-thread/src/memheap.c:188-193 | The block returned is live, and has room for the size asked for if and only if rounding that size up does not wrap around 32 bits |
| MemheapTheorems.HugeIsMinimum | rt-thread/src/memheap.c:188-193 | For a size above 2^32 - 4 both alloc and realloc do what they do for 12 bytes, because RT_ALIGN wraps to 0 and the minimum is 12 |
| MemheapTheorems.HugeServed | rt-thread/src/memheap.c:188-193 | A fresh pool with 96 bytes free hands out a block of twelve bytes for 2^32 - 1 |
| MemheapTheorems.AllocThenFree | rt-thread/src/memheap.c:231-302 | Freeing what was just allocated restores the ring and available_size; the free list is the same if and only if its first block was large enough for the request |
| MemheapTheorems.OrderChanges | rt-thread/src/memheap.c:212-302 | A pool in which the second block of the free list serves the request and comes back as the first |
| MemheapChain.TakeInv | rt-thread/src/memheap.c:231-302 | Giving out a block, split or whole, keeps ring and free list in agreement, and available_size drops by the payload and, after a split, one header |
| MemheapChain.ReleaseInv | rt-thread/src/memheap.c:601-657 | Freeing with merging on both sides keeps ring and free list in agreement, and available_size grows by the payload and the headers saved |
| MemheapChain.GrownInv | rt-thread/src/memheap.c:388-460 | Growing into the right neighbour keeps ring, free list and available_size in agreement |
| MemheapChain.ShrunkInv | rt-thread/src/memheap.c:490-547 | Shrinking with merging keeps ring, free list and available_size in agreement |
| Memheap.Heap.constructor | rt-thread/src/memheap.c:89-158 | A fresh pool is one free block between the first header and the tailer, and it is the whole free list |
| Memheap.Heap.Alloc | rt-thread/src/memheap.c:181-330 | Links, flags, free list, available_size and max_used_size after rt_memheap_alloc are those of first fit in free-list order; no header is written where it would overlap the payload of a live block |
| Memheap.Heap.Search | rt-thread/src/memheap.c:212-226 | The loop stops at the first block of the free list that is large enough |
| Memheap.Heap.Take | rt-thread/src/memheap.c:231-302 | The block leaves the free list, and a long enough rest enters it at the head |
| Memheap.Heap.Free | rt-thread/src/memheap.c:557-658 | Links, flags, free list and available_size after rt_memheap_free are those of release and merge; no header is written where it would overlap the payload of another live block |
| Memheap.Heap.Merge | rt-thread/src/memheap.c:606-657 | Merging left and right: which neighbour disappears, which enters the free list, and how many headers become available |
| Memheap.Heap.Realloc | rt-thread/src/memheap.c:338-550 | The first min(old, new) words survive growing, shrinking and moving; no word of another live block changes, neither by a copy nor by a header that is written over it; a failed call changes nothing; max_used_size is the largest use so far, including the peak while a moved block exists twice |
| Memheap.Heap.Grow | rt-thread/src/memheap.c:387-461 | The neighbour header moves up and its entry in the free list is replaced |
| Memheap.Heap.Shrink | rt-thread/src/memheap.c:477-550 | The rest becomes a free block, merged with a free right neighbour |
| Memheap.Heap.Move | rt-thread/src/memheap.c:466-474 | Moving allocates, copies and frees; without a second block nothing changes |
| Memheap.Heap.CopyWords | rt-thread/src/memheap.c:470 | The copied words equal the source and nothing else changes |
| Memheap.HeaderOutside | rt-thread/src/memheap.c:231-302 | A header that begins where a block does, or that lies in a free block, overlaps no payload of a live block |
| HeapContents.RunContents | rt-thread/src/mem.c:421-615 | In every run of calls and writes on one of the two heaps: a block that no call names stays where it is, and each of its words holds what was last written to it through the block |
| HeapContents.SmallMemCall | rt-thread/src/mem.c:272-615 | A call on the small-memory heap leaves every live block that it does not name alive, in place and with its words |
| HeapContents.MemheapCall | rt-thread/src/memheap.c:181-660 | A call on the memheap leaves every live block that it does not name alive, in place and with its words |
| DList.Unlink | rt-thread/src/memheap.c:262-266 | The two writes by which a block leaves a list leave the other nodes linked in their order, both ways |
| DList.LinkAfter | rt-thread/include/rtservice.h:58-79 | Linking a node behind another puts it there and leaves the order of the others |
| DList.LinkBefore | rt-thread/include/rtservice.h:73-80 | Linking a node in front of another puts it there, in front of the head at the end of the list, and leaves the order of the others |
| DList.Remove | rt-thread/include/rtservice.h:86-92 | The node leaves its list, the others keep their order, and the node is a list of its own |
| DList.Length | rt-thread/include/rtservice.h:107-118 | The number of nodes without the head |
| DList.RemovedRing | rt-thread/src/memheap.c:262-266 | Two link writes turn a ring into the ring without the node |
| DList.InsertedRing | rt-thread/include/rtservice.h:58-65 | Four link writes turn a ring into the ring with the node behind a given one |
| IpcList.InsertSorted | rt-thread/src/ipc.c:97-126 | In priority order the list stays sorted, and a thread goes behind all threads of its own priority |
| IpcList.InsertKeeps | rt-thread/src/ipc.c:85-133 | Suspending adds the thread once, keeps the order of the others, and removing it again gives the old list |
| IpcList.Suspend | rt-thread/src/ipc.c:85-133 | The search loop inserts where the order requires |
| IpcList.HighestPriority | rt-thread/src/ipc.c:203-218 | The loop computes the best priority among the waiting threads, at most RT_THREAD_PRIORITY_MAX - 1 |
| IpcList.HighestIs | rt-thread/src/ipc.c:203-218 | That number is a lower bound and is attained, unless it is RT_THREAD_PRIORITY_MAX - 1 |
| MailboxSpec.RunNoLostWakeup | rt-thread/src/ipc.c:1554-1903 | In every run of blocking senders and receivers: while a sender waits, free slots never outnumber the senders resumed but not yet run, and symmetrically for receivers; once all resumed threads have run, nobody waits for what is there |
| MailboxSpec.RunOrder | rt-thread/src/ipc.c:1554-1945 | In every run, with urgent mails and resets: the mailbox holds the urgent mails, the latest first, and then the others in the order in which they were accepted; ordinary mails never overtake each other; every accepted mail is delivered once, stored, or was thrown away by a reset; without urgent mails and resets delivered and stored mails are exactly those accepted, in order |
| MailboxSpec.RunUrgentFirst | rt-thread/src/ipc.c:1710-1902 | In every run the mail received next is the urgent one sent last and, when there is none, the one accepted first |
| MailboxSpec.StepInv | rt-thread/src/ipc.c:1554-1945 | Each section keeps: no more mails than slots, each thread in one place, no wakeup lost |
| MailboxOutcomes.RecvOutcome | rt-thread/src/ipc.c:1796-1895 | A receive ends with the first mail if and only if there is one, and then resumes the first sender that waits; by a timeout if and only if there is none and no time is left; otherwise in the list of receivers, at its place in FIFO or priority order; nothing else changes |
| MailboxOutcomes.SendOutcome | rt-thread/src/ipc.c:1577-1675 | A send stores its mail behind the others if and only if there is room, and then resumes the first receiver that waits; it fails if and only if there is none and no time is left; otherwise it waits in the list of senders, at its place |
| MailboxOutcomes.UrgentOutcome | rt-thread/src/ipc.c:1723-1756 | An urgent send never waits: it fails if and only if the mailbox is full, and otherwise its mail is the next to be received |
| MailboxOutcomes.ExpireOutcome | rt-thread/src/ipc.c:1849-1853 | A thread whose timer runs out waits no longer; the others keep waiting, and nothing is lost |
| MailboxOutcomes.ResetOutcome | rt-thread/src/ipc.c:1923-1944 | After a reset no mail is there and nobody waits |
| MailboxOutcomes.RunSorted | rt-thread/src/ipc.c:98-155 | In every run of a mailbox with RT_IPC_FLAG_PRIO both lists are in priority order, so the one resumed first has the highest priority and waited longest among its equals |
| MailboxOutcomes.RunWaits | rt-thread/src/ipc.c:1822-1866 | In every run a thread that blocked goes on waiting until its timer ends the wait, the mailbox is reset, or it is resumed and runs again |
| MailboxOutcomes.RunForever | rt-thread/src/ipc.c:1577-1866 | In every run a call with a negative timeout ends neither by a timeout of its own nor by a full mailbox |
| Mailbox.StoreBehind | rt-thread/src/ipc.c:1645-1656 | Writing at in_offset and advancing it appends to the mails of the ring |
| Mailbox.StoreInFront | rt-thread/src/ipc.c:1729-1743 | Moving out_offset back and writing there puts a mail in front of the others |
| Mailbox.TakeFirst | rt-thread/src/ipc.c:1868-1880 | Advancing out_offset takes the first mail and keeps the rest in order |
| Mailbox.WrapIsModulo | rt-thread/src/ipc.c:1648-1651 | The compare-and-reset of the offsets is in_offset == (out_offset + entry) mod size |
| Mailbox.Mailbox.constructor | rt-thread/src/ipc.c:1406-1434 | An empty mailbox; the size is narrowed to sixteen bits |
| Mailbox.Mailbox.SendSection | rt-thread/src/ipc.c:1577-1680 | Ring and lists change as a bounded deque does: append and resume a receiver, or give up, or queue the sender |
| Mailbox.Mailbox.UrgentSection | rt-thread/src/ipc.c:1723-1761 | Ring and lists change as a bounded deque does: prepend and resume a receiver, or refuse when full |
| Mailbox.Mailbox.RecvSection | rt-thread/src/ipc.c:1796-1902 | Ring and lists change as a bounded deque does: take the first mail and resume a sender, or give up, or queue the receiver |
| Mailbox.Mailbox.SendResumed | rt-thread/src/ipc.c:1577-1643 | A resumed sender tries again with the ticks it waited taken off its timeout |
| Mailbox.Mailbox.RecvResumed | rt-thread/src/ipc.c:1796-1866 | A resumed receiver tries again with the ticks it waited taken off its timeout |
| Mailbox.Mailbox.ResetSection | rt-thread/src/ipc.c:1923-1938 | A reset empties the ring and both lists |
| MessageQueueSpec.RunInv | rt-thread/src/ipc.c:2164-2642 | In every run, at every point between two sections: free nodes, queued messages and nodes in copy make up the pool, and no wakeup is lost |
| MessageQueueSpec.RunOrder | rt-thread/src/ipc.c:2164-2642 | In every run, with urgent messages and resets: the queue holds the urgent messages, the latest first, and then the others in the order in which they were linked; ordinary messages never overtake each other; every message linked is received once, queued, or was thrown away by a reset; without urgent messages and resets received and queued messages are exactly those linked, in order |
| MessageQueueSpec.RunUrgentFirst | rt-thread/src/ipc.c:2339-2560 | In every run the message received next is the urgent one linked last and, when there is none, the one linked first |
| QueueOrder.InOrder | rt-thread/src/ipc.c:2388-2411 | Adding at both ends and taking from the front keeps a queue in the order of its labels: urgent ones, latest first, before ordinary ones, earliest first |
| QueueOrder.TakenMatch | rt-thread/src/ipc.c:2544-2557 | What came out is what was added under the labels that came out |
| QueueOrder.OrdinaryFifo | rt-thread/src/ipc.c:2281-2303 | Ordinary messages come out in the order in which they were added, whatever urgent ones go past them |
| QueueOrder.Accounted | rt-thread/src/ipc.c:2625-2639 | What was added is what came out, what a reset threw away and what is queued, counted with multiplicity |
| QueueOrder.PlainFifo | rt-thread/src/ipc.c:2281-2303 | Without urgent messages and resets the queue is first in, first out |
| QueueOrder.LabelsOnce | rt-thread/src/ipc.c:2281-2303 | Each label is given once |
| MessageQueueSpec.CopyUndisturbed | rt-thread/src/ipc.c:2271-2280 | What one thread copies, with interrupts on, no step of another thread disturbs |
| MessageQueueSpec.StepInv | rt-thread/src/ipc.c:2164-2642 | Each half section keeps conservation, one place per thread, and no lost wakeup |
| MessageQueueOutcomes.RecvOutcome | rt-thread/src/ipc.c:2471-2557 | The first half of a receive ends with the first message if and only if there is one; by a timeout if and only if there is none and no time is left; otherwise in the list of receivers, at its place |
| MessageQueueOutcomes.SendOutcome | rt-thread/src/ipc.c:2195-2269 | The first half of a send takes a node if and only if one is free; it fails if and only if none is and no time is left; otherwise it waits in the list of senders, at its place |
| MessageQueueOutcomes.UrgentOutcome | rt-thread/src/ipc.c:2373-2383 | An urgent send never waits: it fails if and only if no node is free, and then changes nothing |
| MessageQueueOutcomes.LinkOutcome | rt-thread/src/ipc.c:2279-2424 | The second half of a send puts the message behind or, for an urgent one, in front of the others, gives up the node, and resumes the first receiver that waits |
| MessageQueueOutcomes.PutBackOutcome | rt-thread/src/ipc.c:2565-2584 | The second half of a receive frees the node and resumes the first sender that waits |
| MessageQueueOutcomes.ExpireOutcome | rt-thread/src/ipc.c:2525-2529 | A thread whose timer runs out waits no longer; the others keep waiting, and nothing is lost |
| MessageQueueOutcomes.ResetOutcome | rt-thread/src/ipc.c:2614-2650 | After a reset no message is queued and nobody waits, and the nodes of the queue are free |
| MessageQueueOutcomes.RunSorted | rt-thread/src/ipc.c:98-155 | In every run of a queue with RT_IPC_FLAG_PRIO both lists are in priority order |
| MessageQueueOutcomes.RunWaits | rt-thread/src/ipc.c:2498-2542 | In every run a thread that blocked goes on waiting until its timer ends the wait, the queue is reset, or it is resumed and runs again |
| MessageQueueOutcomes.RunForever | rt-thread/src/ipc.c:2197-2542 | In every run a call with a negative timeout ends neither by a timeout of its own nor for want of a node |
| MessageQueue.FreeToThreadRep | rt-thread/src/ipc.c:2268-2272 | Popping the free list moves one node from it to the sender; partition, links and copies still agree |
| MessageQueue.ThreadToTailRep | rt-thread/src/ipc.c:2281-2303 | Linking at the tail moves the node to the end of the queue; tail is the last node, or null exactly when head is |
| MessageQueue.ThreadToHeadRep | rt-thread/src/ipc.c:2394-2411 | Linking at the head moves the node to the front of the queue; tail is set when the queue was empty |
| MessageQueue.QueueToThreadRep | rt-thread/src/ipc.c:2544-2557 | Taking the head moves the first node to the receiver; tail becomes null with the last node |
| MessageQueue.ThreadToFreeRep | rt-thread/src/ipc.c:2567-2569 | Returning a node pushes it on the free list |
| MessageQueue.QueueToFreeRep | rt-thread/src/ipc.c:2625-2639 | One turn of the reset loop moves one node from the queue to the free list |
| MessageQueue.Queue.constructor | rt-thread/src/ipc.c:1970-2018 | As many nodes as the pool has room for, narrowed to sixteen bits, are linked on the free list, each once |
| QueuePool.NodesFit | rt-thread/src/ipc.c:1996-1997 | The nodes laid out lie inside the pool |
| QueuePool.BytesApart | rt-thread/src/ipc.c:1996-2010 | No byte of the pool belongs to two nodes, or to a link and a message |
| MessageQueue.Queue.SendSection | rt-thread/src/ipc.c:2193-2272 | Takes a node, refuses a message that is too long, gives up, or queues the sender; the node arrays still hold the partition |
| MessageQueue.Queue.SendResumed | rt-thread/src/ipc.c:2206-2272 | A resumed sender tries again with the ticks it waited taken off its timeout |
| MessageQueue.Queue.UrgentSection | rt-thread/src/ipc.c:2364-2386 | Takes a node or fails at once |
| MessageQueue.Queue.Copy | rt-thread/src/ipc.c:2274-2277 | The message is copied into the node of the thread, which becomes the end of a list |
| MessageQueue.Queue.LinkSection | rt-thread/src/ipc.c:2279-2321 | The message joins the end of the queue and a receiver is resumed |
| MessageQueue.Queue.LinkUrgentSection | rt-thread/src/ipc.c:2391-2429 | The message joins the front of the queue and a receiver is resumed |
| MessageQueue.Queue.RecvSection | rt-thread/src/ipc.c:2479-2560 | The first message leaves the queue with its node, or the receiver gives up or is queued |
| MessageQueue.Queue.RecvResumed | rt-thread/src/ipc.c:2479-2560 | A resumed receiver tries again with the ticks it waited taken off its timeout |
| MessageQueue.Queue.CopyOut | rt-thread/src/ipc.c:2562-2563 | The receiver gets the message it took, cut to the size it asked for, whatever others did meanwhile |
| MessageQueue.Queue.PutBackSection | rt-thread/src/ipc.c:2565-2591 | The node is free again and a sender is resumed |
| MessageQueue.Queue.ResetSection | rt-thread/src/ipc.c:2614-2642 | All queued nodes are free again; nodes in copy are not touched |
| NodeList.Append | rt-thread/src/ipc.c:2281-2292 | Writing the link of the last node appends to a singly linked list |
| MutexSpec.RunInheritance | rt-thread/src/ipc.c:697-966 | In every run of one mutex: owned iff value is 0 iff hold is at least 1, waiters only while owned, the owner is never outranked by a waiter, for FIFO and PRIO lists, and every other thread has its own priority |
| MutexSpec.StepInv | rt-thread/src/ipc.c:697-966 | Take, release and timeout each keep that invariant |
| MutexSpec.TakeInv | rt-thread/src/ipc.c:724-834 | rt_mutex_take keeps it; it reports the hold limit only for an owner at the limit |
| MutexSpec.ReleaseInv | rt-thread/src/ipc.c:882-966 | rt_mutex_release keeps it; only the owner may release, and the final release gives the thread its own priority back |
| MutexSpec.HandOver | rt-thread/src/ipc.c:905-949 | Handing over: the first waiter becomes the owner at the best priority among those that waited |
| MutexSpec.TakeTight | rt-thread/src/ipc.c:775-789 | The owner inherits no more than the best of its own priority and those of its waiters |
| MutexSpec.ReleaseTight | rt-thread/src/ipc.c:895-933 | That stays so over a release |
| MutexSpec.ExpireTight | rt-thread/src/ipc.c:816-825 | After a timeout it stays so if and only if the thread that gave up was not the only reason for the priority of the owner |
| MutexSpec.TimeoutLeavesBoost | rt-thread/src/ipc.c:816-825 | A run after which the owner keeps an inherited priority although nobody waits |
| MutexOutcomes.RunCount | rt-thread/src/ipc.c:724-967 | In every run each thread holds the mutex exactly as often as it has completed takes that it has not released: who took it n times owns it until the n-th release, and nobody else does meanwhile |
| MutexOutcomes.TakeThenRelease | rt-thread/src/ipc.c:724-967 | A release undoes a take: a further take of the owner completely, a first take up to a field that means nothing while nobody owns the mutex |
| MutexOutcomes.TakeOutcome | rt-thread/src/ipc.c:724-796 | A take succeeds if and only if nobody owns the mutex, or the caller does and the count is below its maximum; at the maximum the owner fails; another thread fails without waiting if and only if it does not wait, and otherwise joins the list in priority order while the owner gets its priority if that is higher |
| MutexOutcomes.ReleaseOutcome | rt-thread/src/ipc.c:881-967 | Only the owner may release; after a release that is not the last it holds the mutex once less; the last gives it its own priority back, and the mutex to the first waiter or to nobody |
| MutexOutcomes.RunWaits | rt-thread/src/ipc.c:792-946 | In every run a thread that waits goes on waiting until it is made the owner or its timer runs out |
| Mutex.Mutex.TakeSection | rt-thread/src/ipc.c:724-834 | Fields, list and priorities change as the state machine says |
| Mutex.Mutex.ReleaseSection | rt-thread/src/ipc.c:882-966 | Fields, list and priorities change as the state machine says |
| EventSpec.RunNobodyMissed | rt-thread/src/ipc.c:1125-1390 | In every run, after every send, receive, timeout and reset, no thread is left waiting whose condition the current flags satisfy |
| EventSpec.ScanLeavesNone | rt-thread/src/ipc.c:1146-1203 | During the scan of a send the set only shrinks; waiters split into those resumed and those left, and nobody left is satisfied at the end |
| EventSpec.ScanServes | rt-thread/src/ipc.c:1154-1197 | A resumed thread gets what it asked for: all of it, or a part that is not empty, out of the flags that were set when the scan began |
| EventSpec.ScanTakesOnce | rt-thread/src/ipc.c:1190-1193 | What a CLEAR waiter received is gone from the set, and no thread resumed later in the same send receives any of it |
| EventSpec.ScanKeepsRest | rt-thread/src/ipc.c:1190-1193 | A flag leaves the set only because a CLEAR waiter received it |
| EventSpec.RecvServes | rt-thread/src/ipc.c:1278-1291 | What a receive hands out at once satisfies the condition, and with CLEAR exactly that leaves the set |
| EventOutcomes.RecvOutcome | rt-thread/src/ipc.c:1246-1311 | A receive fails if and only if no flag is asked for; it gets flags if and only if its condition is met; without waiting it times out, and otherwise joins the list, with the flags as they were |
| EventOutcomes.SendOutcome | rt-thread/src/ipc.c:1137-1213 | A send of no flags is refused; otherwise nobody whose condition is met is left waiting, everyone resumed had its condition met by the flags added, and a flag goes out of the set only to a thread that asked for RT_EVENT_FLAG_CLEAR and was resumed |
| EventSpec.Monotone | rt-thread/src/ipc.c:1158-1180 | A condition that some flags satisfy is satisfied by more flags |
| EventSpec.StepInv | rt-thread/src/ipc.c:1125-1390 | Each step keeps that nobody waits for what is there |
| Event.Event.SendSection | rt-thread/src/ipc.c:1125-1215 | The scan loop over the waiting list changes flags, list and thread fields as the sequential scan says, and resumes exactly its threads in order |
| Event.Event.RecvSection | rt-thread/src/ipc.c:1230-1321 | Takes the flags, gives up, or queues the thread, as the state machine says |
| Event.Event.constructor | rt-thread/src/ipc.c:1011-1028 | No flag is set and nobody waits |
| PackedSpec.RunRefines | os/compacted_event_set.cxx:12-46 | In every run of a kernel event shared by 32 logical events, each bit is exactly where it would be as an independent auto-reset flag with its own queue |
| PackedSpec.StepRefines | os/compacted_event_set.cxx:36-46 | One operation is a step of the flag it is about and changes no other flag and no other queue |
| PackedSpec.SetRefines | os/compacted_event_set.cxx:36-38 | Setting a bit resumes at most one thread, the one that has waited for it longest, and leaves the other bits and their waiters alone |
| PackedSpec.WaitRefines | os/compacted_event_set.cxx:40-46 | Waiting takes the flag when it is set and otherwise joins the end of the queue of that bit, or fails at once |
| PackedSpec.ScanOne | rt-thread/src/ipc.c:1146-1203 | What the scan of the kernel event does when only one bit can have become satisfied |
| EventSets.CompactedEventSet.AllocBit | os/compacted_event_set.cxx:8-24 | The lowest free bit; it fails exactly when all bits are in use |
| EventSets.CompactedEventSet.Set | os/compacted_event_set.cxx:36-38 | Raises the flag of one bit of the kernel event, and leaves the others and the fields of all threads |
| EventSets.CompactedEventSet.Wait | os/compacted_event_set.cxx:40-46 | Awaits the flag of one bit of the kernel event, and leaves the others and the fields of other threads |
| EventSets.EventAllocator.Alloc | os/event_allocator.cxx:9-25 | The lowest free bit of the first set that has one, a new set only when all are full; set and kernel events stay in order, so that the event can be set and awaited |
| EventSets.EventAllocator.SetEvent | os/event.cxx:12-14 | The flag of that event is raised and resumes at most its longest waiter; no flag of any other event of any set changes |
| EventSets.EventAllocator.WaitEvent | os/event.cxx:16-18 | The flag of that event is taken or awaited; no flag of any other event of any set changes |
| EventSets.EventAllocator.LoadSection | os/compacted_event_set.cxx:30 | The word is read and the event no longer lives |
| EventSets.EventAllocator.StoreSection | os/compacted_event_set.cxx:30 | The word is written back without the bit |
| EventSets.EventAllocator.TestSection | os/compacted_event_set.cxx:31 | Whether no bit is set |
| EventSets.EventAllocator.DisposeSection | os/event_allocator.cxx:27-35 | Exactly the given set leaves the list; the others keep their order |
| EventSets.EventAllocator.Free | os/compacted_event_set.cxx:29-34 | Without interruption: exactly that event is no longer live, its bit is free, and the set leaves the list exactly with its last event |
| EventSets.RemoveIf | os/event_allocator.cxx:29-34 | The loop of remove_if takes exactly the given set off the list |
| EventPool.RunIndependent | os/compacted_event_set.cxx:12-46 | In every run of all threads, with allocating and freeing in between, each event of each set is exactly where an independent auto-reset flag would be |
| EventPool.KernelRefines | os/compacted_event_set.cxx:36-46 | Setting or awaiting an event is one step of its own flag and changes no flag of its set or of another |
| EventPool.RunInv | os/compacted_event_set.cxx:12-46 | In every run the sets are in order, no thread waits for two events, and a listed set has a bit in use or a thread that is freeing an event of it |
| EventPool.AllocPlace | os/event_allocator.cxx:9-25 | The event handed out is the lowest clear bit of the first set of the list that is not full; a new set joins the list if and only if all of them are full |
| EventPool.AllocDistinct | os/event_allocator.cxx:9-25 | While every bit belongs to its live event, what is handed out belongs to no live event |
| EventPool.RunOwned | os/compacted_event_set.cxx:29-34 | Every bit that is set has its one owner, and every event its bit, at every point of a run if and only if no word is written back that is out of date |
| EventPool.StoreOwned | os/compacted_event_set.cxx:30 | Writing the word back leaves every bit with its owner and none without if and only if no other bit of the set has changed since the word was read |
| EventRuns.RunKept | os/compacted_event_set.cxx:29-34 | Live events have their bits at every point of a run if and only if no write loses one: that is a write after whose reading of the word an event was handed out, and not freed, whose bit is not in the word or is the one to be reset |
| EventRuns.RunDistinct | os/event_allocator.cxx:9-25 | Until a write loses the bit of a live event, no event is handed out that lives already; no write that is up to date loses one |
| EventRuns.ComesAgain | os/event_allocator.cxx:9-25 | When a live event of a listed set has lost its bit, allocations hand out, sooner or later, an event that lives |
| EventRuns.AllocKept | os/event_allocator.cxx:9-25 | While live events have their bits, the event handed out does not live yet, and it gets its bit |
| EventRuns.StoreKept | os/compacted_event_set.cxx:30 | Writing the word back keeps the bits of live events if and only if the word has them all and none is the one that is reset |
| EventRuns.LostUpdate | os/compacted_event_set.cxx:30 | A run in which a bit set between reading and writing the word is lost and its event is handed out a second time |
| EventRuns.OwnerlessBit | os/compacted_event_set.cxx:30 | A run with a write that is out of date in which no event loses its bit and one bit is left without an owner |
| EventRuns.LiveSince | os/compacted_event_set.cxx:12-34 | An event lives if and only if it was handed out and nobody has begun to free it since, or it lived at an earlier point and nobody has since |
| EventRuns.RunListed | os/compacted_event_set.cxx:29-34 | Every live event belongs to a listed set at every point of a run if and only if no set is disposed of while one of its events is handed out and not freed |
| EventRuns.RunListedSince | os/compacted_event_set.cxx:29-34 | While no write loses the bit of a live event, that is so if and only if no event is handed out, and not freed, between the test that finds its set empty and the disposal of the set |
| EventRuns.HandedOutSince | os/compacted_event_set.cxx:31-32 | An event lives in a set that is disposed of if and only if it was handed out and not freed; if live events had their bits at the test that found the set empty, if and only if that was after the test |
| EventRuns.DroppedWhileLive | os/compacted_event_set.cxx:31-32 | A run in which a set leaves the list although an event in it was handed out after the test |
| SchedTheorems.RunSafe | rt-thread/src/scheduler.c:409-830 | In every run a priority bit is set if and only if its list holds a thread, the running thread is on no list, after an unlocked scheduling no ready thread outranks the running one, and while the scheduler is locked the current thread does not change |
| SchedTheorems.RoundRobin | rt-thread/src/scheduler.c:409-530 | k threads of one priority that only yield run in turn: after n yields the thread at place n mod k of the cycle runs |
| SchedTheorems.YieldRotates | rt-thread/src/thread.c:496-509 | One yield moves the running thread behind the others of its priority |
| SchedTheorems.YieldIsRemembered | rt-thread/src/scheduler.c:425-447 | A yield with nobody ready is not forgotten: the next thread of the same priority that becomes ready gets the processor, which it would not without that yield |
| SchedTheorems.StepInv | rt-thread/src/scheduler.c:409-960 | Every operation keeps lists, bitmap and thread states in agreement |
| SchedTheorems.StepSettles | rt-thread/src/scheduler.c:409-960 | Which operations end with the best thread running, and that the others do not switch |
| SchedOutcomes.RunDepth | rt-thread/src/scheduler.c:872-961 | In every run the lock is the number of critical sections that are open |
| SchedOutcomes.RunCritical | rt-thread/src/scheduler.c:872-955 | From an enter to the exit that matches it, whatever is opened, closed, made ready, suspended or yielded between, the current thread stays the same |
| SchedOutcomes.LastExit | rt-thread/src/scheduler.c:943-955 | The exit that closes the last section leaves the scheduler unlocked with the best thread running |
| SchedOutcomes.StartOutcome | rt-thread/src/thread.c:316-341 | A started thread is ready, behind the others of its priority, and nothing else changes |
| SchedTheorems.SuspendInv | rt-thread/src/thread.c:767-806 | Suspending keeps the agreement; exactly ready and running threads are suspended |
| SchedTheorems.ResumeInv | rt-thread/src/thread.c:816-850 | Resuming keeps the agreement; exactly suspended threads are resumed, to the end of their list, or to running if the thread is still the current one |
| SchedSpec.FreshInv | rt-thread/src/scheduler.c:181-251 | A freshly started scheduler is in agreement |
| SchedTheorems.ChangePriorityInv | rt-thread/src/thread.c:654-707 | Changing a priority changes only that, and keeps the agreement; a ready thread moves to the end of its new list |
| SchedSpec.ScheduleBest | rt-thread/src/scheduler.c:409-530 | Who runs after rt_schedule: the old thread if nobody better is ready, nor an equal one after a yield; otherwise the one that has been ready longest at the best priority |
| SchedSpec.LookupIsBest | rt-thread/src/scheduler.c:153-175 | The bitmap lookup finds the best ready priority, and nothing exactly when nobody is ready |
| SchedSpec.SwitchIs | rt-thread/src/scheduler.c:423-467 | A switch in one piece: the new thread leaves the head of its list, the old one goes to the end of its own if it is still running |
| SchedSpec.StayIs | rt-thread/src/scheduler.c:425-447 | Without a switch only a pending yield is dropped |
| SchedSpec.InsertInv | rt-thread/src/scheduler.c:699-733 | Inserting keeps lists and bitmap in agreement |
| SchedSpec.RemoveAbsent | rt-thread/src/scheduler.c:796-826 | Removing a thread that is on no list changes nothing |
| TwoLevelBitmap.LookupIsFirst | rt-thread/src/scheduler.c:153-167 | The two-level lookup finds what a search of one long bitmap finds |
| TwoLevelBitmap.MarkAgrees | rt-thread/src/scheduler.c:724-728 | Inserting keeps the two levels in agreement with the ready lists |
| TwoLevelBitmap.UnmarkAgrees | rt-thread/src/scheduler.c:811-822 | Removing keeps the two levels in agreement with the ready lists |
| Scheduler.Scheduler.Run | rt-thread/src/scheduler.c:409-530 | The tables after rt_schedule are those of the state machine, and the best thread runs when the scheduler is not locked |
| Scheduler.Scheduler.Insert | rt-thread/src/scheduler.c:699-733 | The tables after the insertion are those of the state machine |
| Scheduler.Scheduler.Take | rt-thread/src/scheduler.c:796-826 | The tables after the removal are those of the state machine |
| Scheduler.Scheduler.YieldProcessor | rt-thread/src/thread.c:496-509 | Yielding marks the thread and schedules |
| Scheduler.Scheduler.Suspend | rt-thread/src/thread.c:767-806 | A ready or running thread leaves the ready lists; others are refused |
| Scheduler.Scheduler.Resume | rt-thread/src/thread.c:816-850 | A suspended thread becomes ready; others are refused |
| Scheduler.Scheduler.SetPriority | rt-thread/src/thread.c:654-707 | A ready thread changes its list, any other only its priority |
| Scheduler.Scheduler.Exit | rt-thread/src/scheduler.c:936-961 | The outermost exit schedules, and leaving too often leaves the scheduler unlocked |
| PageList.RunConserves | rt-thread/src/slab.c:236-335 | In every run each page of the pool is free or in exactly one block in use, and when everything has been freed, in any order, the list is the one run it began with |
| PageList.AllocKeeps | rt-thread/src/slab.c:236-270 | Exactly the pages of the block stop being free; the list stays sorted, disjoint and coalesced |
| PageList.AllocIsLowest | rt-thread/src/slab.c:244-265 | The block is the lowest one possible, and there is none exactly when no run of that many pages is free |
| PageList.ReleaseKeeps | rt-thread/src/slab.c:272-322 | Exactly the pages of the block become free; the list stays sorted, disjoint and coalesced |
| PageList.FreeBlockApart | rt-thread/src/slab.c:287-290 | The assertion inside the loop of rt_page_free holds for pages that are not free |
| PageList.SamePages | rt-thread/src/slab.c:236-322 | The list is determined by which pages are free |
| PageList.AllocThenRelease | rt-thread/src/slab.c:236-322 | Freeing the pages that were just allocated restores the list |
| Pages.Pages.constructor | rt-thread/src/slab.c:327-334 | After rt_page_init all pages are one free run |
| Pages.Pages.AllocPages | rt-thread/src/slab.c:236-270 | The headers in the free pages hold the list after first fit |
| Pages.Pages.FreePages | rt-thread/src/slab.c:272-322 | The headers in the free pages hold the list after the release with merging |
| Pages.Pages.FindPlace | rt-thread/src/slab.c:287-314 | The search loop, with the assertion of the source in place |
| SlabZone.ZoneIndexFits | rt-thread/src/slab.c:401-459 | A request gets the smallest chunk size there is that holds it, the index is below NZONES and tells the chunk size, and at 128 bytes and above less than an eighth is lost |
| SlabZone.SameIndexSameChunk | rt-thread/src/slab.c:401-459 | Two requests have the same zone index if and only if they have the same chunk size |
| SlabZone.ZoneIndexStable | rt-thread/src/slab.c:716-718 | Rounding a chunk size again changes nothing |
| SlabZone.TakeKeeps | rt-thread/src/slab.c:539-568 | The chunk taken was not in use, and z_nfree stays never-used chunks plus free-list length |
| SlabZone.GiveKeeps | rt-thread/src/slab.c:830-842 | Exactly the chunk given back is no longer in use, and the counts agree |
| SlabZone.CountSays | rt-thread/src/slab.c:842-855 | z_nfree is z_nmax exactly when no chunk is in use and 0 exactly when all are |
| SlabZone.NewZoneFits | rt-thread/src/slab.c:628-648 | A new zone has at least two chunks, all of them between its header and its end |
| SlabZone.ChunksApart | rt-thread/src/slab.c:640-648 | Chunks of a zone do not overlap |
| SlabZone.ChunkAligned | rt-thread/src/slab.c:631-638 | Chunks whose size is a power of two are aligned to it if and only if their zone is |
| SlabTheorems.RunIsolation | rt-thread/src/slab.c:478-901 | In every run of malloc and free: the counts of every zone agree, a zone is on the list of its index exactly while it has free chunks and is not spare, pages are conserved, and no two blocks in use share a byte |
| SlabTheorems.MallocKeeps | rt-thread/src/slab.c:478-672 | malloc keeps that invariant and hands out one block that was not in use, large enough, and leaves the others as they were |
| SlabTheorems.FreeKeeps | rt-thread/src/slab.c:771-901 | free keeps that invariant and exactly the freed block is no longer in use |
| SlabTheorems.BlocksApart | rt-thread/src/slab.c:551-568 | Two blocks in use share no byte |
| SlabTheorems.FindsBlock | rt-thread/src/slab.c:825-832 | From the address of a block in use the page table leads back to its zone and chunk, or to the whole block |
| SlabTheorems.PowerAligned | rt-thread/src/slab.c:478-652 | A request for a power of two is aligned to its size always up to a page, and beyond a page if and only if the page that serves it, which can be read from the lists before the call, is a multiple of the size in pages; for any page at which the heap begins |
| SlabTheorems.NotAlignedBeyondPage | rt-thread/src/slab.c:493-497 | A fresh heap of up to 1024 pages serves its first request for 8192 bytes at its offset 4096, aligned if and only if the heap begins at an odd page, unlike what the comment in the source says |
| SlabTheorems.FreshInv | rt-thread/src/slab.c:344-394 | The heap that rt_system_heap_init leaves is in order, with the page table at its start |
| SlabOutcomes.MallocNull | rt-thread/src/slab.c:478-664 | NULL if and only if the size is 0, or the request needs pages and no run of free pages is long enough: a large request needs its own, a small one those of a zone when the list of its chunk size and that of spare zones are empty |
| SlabOutcomes.MallocSource | rt-thread/src/slab.c:493-626 | Exactly the pages needed are taken, from the lowest run of free pages that is long enough; while a zone is at hand none is |
| SlabOutcomes.FreshServes | rt-thread/src/slab.c:344-664 | A fresh heap with pages for one zone behind its page table serves every request below the limit |
| SlabOutcomes.FreeLargeOutcome | rt-thread/src/slab.c:797-820 | Freeing a large block frees exactly its pages |
| SlabOutcomes.FreeChunkOutcome | rt-thread/src/slab.c:842-901 | Freeing a chunk retires its zone if and only if it was the last in use and another zone of its size has a free chunk: the zone becomes spare, or with two spare already exactly its pages become free; otherwise no page changes hands |
| Slab.Slab.constructor | rt-thread/src/slab.c:344-394 | The allocator is the fresh heap: the page table in the first pages, everything else one free run, the zone size that the loop chooses |
| Slab.Slab.Allocate | rt-thread/src/slab.c:478-672 | The tables after rt_malloc are those of the reference definition |
| Slab.Slab.Deallocate | rt-thread/src/slab.c:771-901 | The tables after rt_free are those of the reference definition |
| Slab.Slab.Retire | rt-thread/src/slab.c:854-900 | A zone without chunks in use becomes spare, or gives its pages back when two are spare already |
| Slab.ChooseZoneSize | rt-thread/src/slab.c:374-377 | The zone size is the smallest of the three that the loop may stop at |
| Slab.Unlink | rt-thread/src/slab.c:862-865 | The loop finds the zone on its list and unlinks it |
| Ethernet.Sender.Transmit | libraries/HAL_Drivers/drv_eth.c:200-243 | It fails exactly when one of the max(1, ceil(len/B)) descriptors the frame needs belongs to the hardware, and has then filled the buffers before that one. Otherwise the buffers are those of a byte-by-byte copy: where each byte was stored is that byte or the one that came around the ring onto it, all of the frame is there if the ring has enough buffers, and no other place changes |
| Ethernet.DeliversWhole | libraries/HAL_Drivers/drv_eth.c:200-243 | Every frame of a given length arrives whole, whatever its bytes and what the buffers held, if and only if it needs no more buffers than the ring has |
| Ethernet.ByteIs | libraries/HAL_Drivers/drv_eth.c:221-235 | Where a byte was stored there is in the end the last byte of the frame a whole number of times around the ring behind it |
| Ethernet.OthersKept | libraries/HAL_Drivers/drv_eth.c:213-241 | A place of a buffer where no byte of the frame belongs keeps its contents |
| Ethernet.OverlongLoses | libraries/HAL_Drivers/drv_eth.c:200-243 | For every length that does not fit, a frame that loses its first byte |
| Ethernet.FirstByteLost | board/CubeMX_Config/Inc/stm32f1xx_hal_conf.h:171-173 | With four transmit buffers, a packet of one byte more than they hold is sent without error and loses its first byte |
| Ethernet.Sender.CopyPacket | libraries/HAL_Drivers/drv_eth.c:206-243 | One packet buffer is appended to what has been copied, never beyond the end of a buffer |
| Ethernet.Receive | libraries/HAL_Drivers/drv_eth.c:322-345 | For any lengths of the receiving packet buffers, the chain holds the bytes of the frame in order |
| Ethernet.SendAndReceive | libraries/HAL_Drivers/drv_eth.c:200-345 | What was sent and is received from the same buffers, divided into packet buffers in any other way, is the same bytes if the frame needs no more buffers than the ring has |
| Ethernet.ReceivePacket | libraries/HAL_Drivers/drv_eth.c:324-345 | One packet buffer gets the next bytes of the frame |
| Ethernet.WriteAppends | libraries/HAL_Drivers/drv_eth.c:213-241 | A memcpy that goes on in the current buffer has the result of storing its bytes one by one |
| Ethernet.FrameNext | libraries/HAL_Drivers/drv_eth.c:333-344 | Reading on in the current buffer reads the next bytes of the frame |
| Ethernet.RingApart | libraries/HAL_Drivers/drv_eth.c:221-222 | Descriptors fewer than a whole ring apart are different |
| MemCopy.MemCpy | rt-thread/src/kservice.c:211-281 | The copy by four words, words and bytes always has the result of the copy byte by byte |
| MemCopy.ByteCopyMoves | rt-thread/src/kservice.c:272-273 | Copying forwards delivers the source unchanged, whatever it contains, and changes nothing else, if and only if the destination does not begin inside the source |
| MemCopy.WordIsFourBytes | rt-thread/src/kservice.c:243-265 | Between aligned addresses a word at a time is the same as four bytes in turn, also when the ranges overlap |
| MemCopy.MemMove | rt-thread/src/kservice.c:296-315 | Whatever the ranges, the source arrives unchanged and nothing else changes |
| Format.Vsnprintf | rt-thread/src/kservice.c:785-1048 | The value returned is the length of the whole output, whatever the size; the buffer holds as much of the output as fits, with a NUL behind it, and nothing at or beyond size is written; an end beyond the address space is moved back to its last address |
| Format.Vsprintf | rt-thread/src/kservice.c:1078-1081 | An output that the memory can hold is written whole with a NUL behind it, and nothing else changes |
| Format.Printer.PrintNumber | rt-thread/src/kservice.c:613-783 | The padding loops, sign and digits print the number in its field |
| Format.Printer.Print | rt-thread/src/kservice.c:818-1033 | The loop over the format prints the text of each directive in order |
| Format.Printer.PrintText | rt-thread/src/kservice.c:920-947 | The case of %s |
| Format.Collect | rt-thread/src/kservice.c:684-691 | The digit loop collects the digits, last one first, and its buffer of 16 characters is large enough |
| Format.SkipAtoi | rt-thread/src/kservice.c:596-603 | Reads a number digit by digit |
| FormatSpec.DigitsReadBack | rt-thread/src/kservice.c:576-603 | The digits of a number in base 10 read back, by skip_atoi, as that number |
| FormatSpec.NumberReadsBack | rt-thread/src/kservice.c:613-783 | For any width, flags and precision: behind blanks and the sign a number printed in base 10 reads back as the same number if and only if the precision is not 0 or the number is 0; with precision 0 no digit is printed |
| FormatSpec.NumberWidth | rt-thread/src/kservice.c:693-783 | A number fills its field exactly, unless sign and digits need more; with precision 0 the place of the digits is missing |
| FormatSpec.OctalIsHex | rt-thread/src/kservice.c:576-593 | In base 8 hexadecimal digits are printed, and they are the octal ones if and only if the number is below 8 |
| FormatSpec.ReadHex | rt-thread/src/kservice.c:576-593 | The numeral of base 16 reads back in base 16 as the number |
| FormatSpec.ReadOctal | rt-thread/src/kservice.c:576-593 | The octal numeral read in base 16 is larger than the number from 8 on |
| FormatSpec.OddNumbers | rt-thread/src/kservice.c:765-775 | As %o prints 8 and as %.0d prints 5 |
| FormatOutcomes.SignedDecimal | rt-thread/src/kservice.c:986-1031 | %d and %i print the decimal numeral of the argument, behind a minus sign if and only if it is negative |
| FormatOutcomes.UnsignedNumeral | rt-thread/src/kservice.c:976-1031 | %u prints the decimal numeral, %x and %X the hexadecimal one in small and in capital letters, and so does %o in small letters |
| FormatOutcomes.Pointer | rt-thread/src/kservice.c:953-968 | %p prints at least eight hexadecimal digits, the leading ones zeros |
| FormatOutcomes.PlainText | rt-thread/src/kservice.c:921-951 | %s prints the text |
| FormatOutcomes.PlainCharacter | rt-thread/src/kservice.c:898-919 | %c prints the character |
| FormatOutcomes.PercentSign | rt-thread/src/kservice.c:970-973 | %% prints a percent sign and takes no argument |
| FormatOutcomes.Unknown | rt-thread/src/kservice.c:992-1005 | Any other letter is printed as it stands, with its percent sign, and takes no argument |
| FormatOutcomes.Ordinary | rt-thread/src/kservice.c:818-826 | What is not a directive is printed as it stands |
| FormatOutcomes.DirectiveReads | rt-thread/src/kservice.c:828-891 | Flags, a width, a precision and a qualifier that are written out are read as what they say |
| FormatOutcomes.StarsRead | rt-thread/src/kservice.c:846-872 | Stars take width and precision from the arguments; a negative width fills up from the right, and a negative precision counts as 0 |
| FormatOutcomes.HexReads | rt-thread/src/kservice.c:953-1031 | In any field filled up from the left %x, %X, %o and %p print what reads in base 16 as the bits of the argument, 16 of them with h; with precision 0 nothing is read |
| FormatOutcomes.DecimalReads | rt-thread/src/kservice.c:986-1031 | In any field %d, %i and %u print behind blanks and a sign what reads back as the number whose bits the argument has; the sign is a minus if and only if the number is negative |
| FormatOutcomes.SameBits | rt-thread/src/kservice.c:1012-1031 | Arguments with the same 32 bits print the same text |
| FormatSpec.TextWidth | rt-thread/src/kservice.c:924-947 | A text with a field width takes exactly that width: longer texts are cut off |
| FormatSpec.DigitsFit | rt-thread/src/kservice.c:642-691 | A 32-bit number has at most ten digits in the bases that divide knows |
| FormatSpec.ClippedIs | rt-thread/src/kservice.c:1035-1042 | What a clipped buffer is: a prefix of the output, a NUL within size, and the old contents from size on |

## Left out

- Concurrency inside a step: the heaps run under a semaphore, and the IPC sections and the scheduler with interrupts off, so each of these stretches is one step; allocating an event and disposing of a set run with the scheduler locked and are one step each, and the rest of freeing an event is three steps. A move of `rt_realloc`, in `mem.c` and `memheap.c`, lets the semaphore go before it allocates, copies and frees: interrupted, it is two operations of a run with others between (`InterruptedMove`); the methods `Realloc` model it uninterrupted. Where `rt_malloc` and `rt_free` of `slab.c` let the semaphore go between zone and page work, the model has one step.
- SMP, `cpu.c`, context switching, stack checks, signals, hooks, object names, debug output and memory tracing.
- Creating, deleting and detaching IPC objects, and semaphores, which would only repeat the list and counter arguments.
- Several mutexes held at once, and priority changes from elsewhere while a mutex is held: inheritance is stated for one mutex whose use is the only source of priority changes.
- Timers: they appear as the steps that end a wait; how they are set, and the starting of the timer of a waiting thread, is not modelled.
- MessageQueue.Queue.Copy: messages are sequences of `msgSize` numbers kept in an array of their own; that links and messages lie apart in the pool is stated by `BytesApart`.
- Memheap.Heap.constructor: the header fields of the memheap are kept in arrays indexed by the address of the header, one array per field, and payload words in an array of their own, so the model does not capture a write through a payload pointer into a header; that the headers written lie outside the payloads of live blocks is stated by Alloc, Free and Realloc.
- Memheap.Heap.Realloc: a free of the memheap checks a magic number in the header; the model asks for a live block instead.
- SmallMem.Heap.Free: the source tests the magic word and alignment of the block only in assertions; the model asks for a pointer that is null, outside the heap or live.
- Slab.Slab.Allocate: the statistics under RT_MEM_STATS are not modelled, and zone headers are kept in a map by the first page of their zone instead of in that page; lists of zones and of free chunks are sequences, and so the links c_next and z_next inside chunks and headers are not written. rt_realloc and rt_calloc, which are built from malloc, copy and free, are left out.
- Slab.Slab.Deallocate: as for Allocate, the links inside chunks and zone headers are sequences.
- Slab.Unlink: the list of zones is a sequence instead of z_next links.
- SlabZone.NewZoneFits: the bit test for a power of two is modelled as the property it tests.
- Scheduler.Scheduler.Run: each ready list is a sequence; the links of such a list are the subject of `DList`. rt_thread_delete, rt_thread_detach and the time slice counter are left out.
- Event.Event.SendSection: a word of flags is a set of bit numbers; the early return for a waiter with neither RT_EVENT_FLAG_AND nor RT_EVENT_FLAG_OR cannot be reached, since rt_event_recv asserts that one is chosen.
- EventSets.EventAllocator.Alloc: expired weak pointers are not modelled; while every bit belongs to an event, a listed set has one that lives or is being freed and holds the set (`RunInv`). When a set is destroyed, and its kernel event with it, is not modelled; a failing rt_event_create is not modelled. A new event finds its flag as the bit of the kernel event was left: freeing does not clear it.
- Ethernet.Sender.Transmit: descriptor status words other than the owner bit, HAL calls and the PHY are left out.
- Format.Vsnprintf: overflow of the `int` in skip_atoi, missing or mistyped arguments, which C leaves undefined (a missing number reads as 0), and the RT_PRINTF_LONGLONG and RT_PRINTF_SPECIAL variants, which are off.
- `mempool.c`, `object.c`, `device.c`, `idle.c`, `irq.c`, `clock.c`, the console, and all drivers but the copy loops of `drv_eth.c`: simpler lists and counters, or hardware.
