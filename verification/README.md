# Phlox: a verified model of the kernel's and boot loader's algorithms

Phlox is a small microkernel. This project models the parts of it that carry state and
algorithms, and proves what they keep and what they compute:

- **Inflating** the boot image: canonical Huffman tables, the bit reader, the circular
  window, the three kinds of blocks and the CRC, against RFC 1951 and RFC 1952
  (`bits` to `inflate_blocks`, `crc`).
- **AVL trees** with parent links, on a memory of cells (`avl_*`), and the **address space
  map** that is kept both as a list and as such a tree (`aspace_map`, `address_space`).
- The **scheduler** with its 128 run queues (`run_queues`, `scheduler`), the aging that keeps
  low priorities from starving (`aging`), and the thread operations that drive it (`threads`).
- **Semaphores and mutexes**, as objects and as interleaved steps of threads
  (`semaphores`, `sem_protocol`, `sem_stranding`, `mutexes`).
- The **timer**: a queue of differences that stands for deadlines (`timer_queue`), and the
  handshake between cancelling a timeout and running it (`timeouts`).
- **Memory**: physical pages (`page_lists`, `vm_pages`), the kernel heap (`heap_blocks`,
  `heap`), memory objects with their references (`vm_refs`, `memory_objects`).
- **BootFS**: the image builder and the reader that undoes it (`bootfs_*`).

What the original changes in place is a class here, and each method is proved against a
specification: a function of its inputs, or of the old state. What several calls promise
together are lemmas over all inputs or all runs. A lock-held region, or a region with
interrupts disabled, is one atomic step, since the build is uniprocessor
(phlox/include/phlox/sysconfig.h:24). Unsigned arithmetic that can wrap is written out
modulo 2^32.

`dafny verify dfyconfig.toml` checks everything.

## Model

| member | source | states |
|---|---|---|
| Huffman.Build | phlox/boot/pc/i386/inflate.c:306-500 | Returns 2 exactly when the Kraft sum of the lengths exceeds 1, and 1 exactly when it is below 1 and some code is longer than one bit; sound tables decode every string as section 3.2.2 of RFC 1951 says; for a complete set the tables decode every string if and only if they are sound |
| HuftBuild.BuildTables | phlox/boot/pc/i386/inflate.c:400-500 | The table loop gives every code its entry when the set is sound for the table width; when it is not, some string runs into an entry that was never written |
| HuftBuild.NewTable | phlox/boot/pc/i386/inflate.c:417-460 | A new table of the chosen width, linked from the table above it, keeps the stack, the layout and every code already placed |
| HuftCodes.TableBits | phlox/boot/pc/i386/inflate.c:422-434 | The width chosen for a new table holds every code of its region or at least l bits; it stays within l bits exactly where the region has room |
| HuftCodes.BackIncrement | phlox/boot/pc/i386/inflate.c:483-486 | Counting a reversed code up from its highest bit gives the reversed successor of the code word |
| HuftBuild.Backup | phlox/boot/pc/i386/inflate.c:488-493 | Going back over finished tables leaves the stack of tables that lead to the next code word |
| Huffman.LengthBounds | phlox/boot/pc/i386/inflate.c:358-372 | Finds the shortest and longest length in use; the table width is the requested one bounded by them |
| Huffman.Missing | phlox/boot/pc/i386/inflate.c:375-381 | The running difference fails exactly when the codes do not fit the code space, and otherwise is the number of missing longest codes |
| Huffman.SortValues | phlox/boot/pc/i386/inflate.c:384-398 | Every symbol in use is stored at the rank of its code, by length and then by value, and nowhere else |
| Huffman.AllDecode | phlox/boot/pc/i386/inflate.c:306-500 | With an entry for every code word, each string that starts with a symbol's code decodes to that symbol and length, and any other string is refused |
| Huffman.SmallIsSound | phlox/boot/pc/i386/inflate.c:417-435 | Tables are sound when the longest code is under twice the table width, or when there are fewer codes than entries in a table |
| Inflaters.Inflater.NeedBits | phlox/boot/pc/i386/inflate.c:257-257 | Ensures at least n buffered bits without moving the position, exactly when the input has that many left |
| Inflaters.Inflater.GetField | phlox/boot/pc/i386/inflate.c:250-258 | Reads an n-bit field, least significant bit first, and moves n bits on, exactly when it is there |
| Inflaters.Inflater.BufferFits | phlox/boot/pc/i386/inflate.c:240-257 | The bit buffer never holds a bit beyond its 32 |
| Inflaters.Inflater.Decode | phlox/boot/pc/i386/inflate.c:546-561 | The lookup loop over buffered bits finds what walking the tables finds in the unread input, and uses up just its bits |
| Inflaters.Inflater.PutByte | phlox/boot/pc/i386/inflate.c:562-570 | One byte more of history, whether or not the window fills and is flushed |
| Inflaters.Inflater.CopyBack | phlox/boot/pc/i386/inflate.c:601-617 | The batched window copy appends what copying byte by byte from dist back appends, for every length and every distance up to 32768 |
| Inflaters.AtOnceIsShort | phlox/boot/pc/i386/inflate.c:604-609 | Where the unsigned test picks memcpy, no byte copied is one this copy produces |
| Inflate.WalkIsSymbol | phlox/boot/pc/i386/inflate.c:546-561 | Walking the tables of a set of lengths finds the next symbol of the stream, or refuses just where there is none, or runs out near the end |
| Inflate.InflateCodes | phlox/boot/pc/i386/inflate.c:525-630 | Decodes literals and matches of a block to the history that section 3.2.5 of RFC 1951 defines, fails where it is malformed, or overruns near the end of the input |
| InflateBlocks.MakeTables | phlox/boot/pc/i386/inflate.c:705-725 | For every kind of set inflate.c passes, an acceptable set is accepted and no other, with sound tables |
| InflateBlocks.InflateStored | phlox/boot/pc/i386/inflate.c:634-683 | A stored block gives its bytes if the length matches its complement, and fails otherwise |
| InflateBlocks.InflateFixed | phlox/boot/pc/i386/inflate.c:687-734 | A fixed block decodes with the code lengths of section 3.2.6 of RFC 1951, although its distance code is incomplete |
| InflateBlocks.ReadLengths | phlox/boot/pc/i386/inflate.c:803-850 | The run-length coded code lengths are those of section 3.2.7 of RFC 1951, with an overlong run refused |
| InflateBlocks.RunsWritten | phlox/boot/pc/i386/inflate.c:823-850 | Symbol 16 with a two-bit field x writes 3 + x copies of the last length, symbol 17 with three bits 3 + x zeros, symbol 18 with seven bits 11 + x zeros; x is below 4, 8 and 128, and a run past the end is refused |
| InflateBlocks.ZeroRunsSpelled | phlox/boot/pc/i386/inflate.c:833-850 | A run of m zeros is spelled by symbol 17 and m - 3 for m in 3..10, by 18 and m - 11 for m in 11..138, and by no other symbol and field |
| InflateBlocks.ReadHeader | phlox/boot/pc/i386/inflate.c:738-850 | The header of a dynamic block: counts within bounds, an acceptable code length code, and the lengths |
| InflateBlocks.InflateDynamic | phlox/boot/pc/i386/inflate.c:738-898 | A dynamic block decodes to the history its own codes define, or fails |
| InflateBlocks.InflateStream | phlox/boot/pc/i386/inflate.c:947-989 | A finished run produced exactly the output the RFC's reading of the stream gives, with the input pointer just past it; a valid stream with enough input behind it never fails |
| Crc.Crc32 | phlox/boot/pc/i386/inflate.c:1005-1014 | The table-driven loop computes the remainder of bit by bit reflected polynomial division, as in section 8 of RFC 1952, of every byte string |
| Crc.InitTab | phlox/boot/pc/i386/inflate.c:993-1003 | Entry i of the table is byte i after eight division steps |
| Crc.FeedIsRemainder | phlox/boot/pc/i386/inflate.c:993-1014 | Feeding message bits into the register is long division |
| Crc.Generator | phlox/boot/pc/i386/inflate.c:993-1003 | The constant has the coefficient of x^e exactly for e in 0, 1, 2, 4, 5, 7, 8, 10, 11, 12, 16, 22, 23 and 26 |
| AvlShape.HeightBound | phlox/kernel/util/avl_tree.c:130-291 | A balanced tree of height h has at least Fib(h + 2) - 1 nodes |
| AvlTrees.AvlTree.Rotation | phlox/kernel/util/avl_tree.c:130-291 | A rotation restores balance, keeps the order, the links, the cells and everything outside the subtree, and tells truly whether the subtree is lower than it was |
| AvlTrees.AvlTree.RotateOnce | phlox/kernel/util/avl_tree.c:145-211 | The single rotation's pointer updates give the rotated subtree with right balances |
| AvlTrees.AvlTree.RotateTwice | phlox/kernel/util/avl_tree.c:220-291 | The double rotation's pointer updates give the rotated subtree with right balances |
| AvlTrees.AvlTree.Find | phlox/kernel/util/avl_tree.c:377-411 | Finds a node that compares equal; otherwise reports the empty place that parts the smaller nodes from the greater ones |
| AvlTrees.AvlTree.Insert | phlox/kernel/util/avl_tree.c:424-496 | Inserting at an empty place puts just that node there in order, and keeps links, stored balances, balance and count |
| AvlTrees.AvlTree.InsertHere | phlox/kernel/util/avl_tree.c:511-567 | Inserts the node directly before or after the given one in order |
| AvlTrees.AvlTree.Add | phlox/kernel/util/avl_tree.c:637-647 | Adds the node, at its place in order, exactly when no node compares equal |
| AvlTrees.AvlTree.Remove | phlox/kernel/util/avl_tree.c:673-822 | Takes just that node out of the order and keeps the tree well formed; finds it whenever only it compares equal |
| AvlTrees.AvlTree.SwapWithNeighbour | phlox/kernel/util/avl_tree.c:699-760 | The node with two children and its neighbour trade places in order, the neighbour's old place going to the placeholder |
| AvlTrees.AvlTree.Rebalance | phlox/kernel/util/avl_tree.c:770-822 | Climbing from a subtree that became one lower restores balance up to the root and keeps the order |
| AvlTrees.AvlTree.Walk | phlox/kernel/util/avl_tree.c:306-346 | The neighbour in order, or NULL at the end |
| AvlTrees.AvlTree.Nearest | phlox/kernel/util/avl_tree.c:615-631 | The node just before or after an empty place |
| AvlTrees.AvlTree.Extreme | phlox/kernel/util/avl_tree.c:574-605 | The first or last node in order |
| AddressSpaces.ComparisonDirected | phlox/kernel/vm/vm_address_space.c:53-66 | Comparing overlap as equal still directs a tree search, because mappings are disjoint and sorted |
| AddressSpaces.AddressSpace.LocateGap | phlox/kernel/vm/vm_address_space.c:121-171 | In wrapping arithmetic, finds the lowest free range of the size asked for, or fails exactly when there is none |
| AddressSpaces.AddressSpace.PutMapping | phlox/kernel/vm/vm_address_space.c:176-209 | The mapping joins list and tree at the same place exactly when none compares equal; the map stays sorted and disjoint exactly if the mapping lies inside it |
| AddressSpaces.AddressSpace.CreateExactly | phlox/kernel/vm/vm_address_space.c:372-403 | Succeeds exactly for a range that collides with nothing, where it ends within the map; the map stays well formed exactly in that case |
| AddressSpaces.AddressSpace.CreateMapping | phlox/kernel/vm/vm_address_space.c:341-369 | For every size and alignment: which status, and the mapping at the rounded start of the lowest gap for the wrapped size. In plain numbers: with less than two pages of alignment it starts where the lowest gap of n bytes does; with npg_align * 4096 and n + (npg_align - 1) * 4096 below 2^32, on a page-aligned map, it succeeds, given memory, exactly if that many bytes are free in one place, and starts at the least multiple of npg_align * 4096 from the lowest such gap on |
| AspaceMap.StaysInGap | phlox/kernel/vm/vm_address_space.c:349-358 | Without overflow the padding is always enough: the least multiple of the alignment from the start of the gap on is the start of a range that ends within the gap |
| AspaceMap.RoundsToLeast | phlox/kernel/vm/vm_address_space.c:362-365 | Rounding up by division gives the least multiple of the alignment that is not below the address |
| AspaceMap.PlainRequest | phlox/kernel/vm/vm_address_space.c:349-358 | The size searched for and the alignment as computed are the plain ones for every request that does not wrap |
| AspaceMap.PlacementIff | phlox/kernel/vm/vm_address_space.c:341-369 | For every size and alignment: no page-aligned map has the mapping misplaced, if and only if the padded size does not overflow, or the size is a page or less and the alignment wraps to nothing |
| AddressSpaces.AddressSpace.DeleteMapping | phlox/kernel/vm/vm_address_space.c:406-411 | Removes just that mapping from list and tree; neither removal fails |
| AddressSpaces.AddressSpace.GetMapping | phlox/kernel/vm/vm_address_space.c:414-434 | Returns a mapping exactly when one covers the address, and then that one |
| RunQueues.QueuedOnce | phlox/kernel/scheduler.c:51-86 | A thread other than the idle one is in a run queue exactly if it is ready, and then in one place only |
| RunQueues.Promoted | phlox/kernel/scheduler.c:219-244 | Moving the head of a queue to the tail of a higher one keeps every ready thread queued once at its priority, and the total |
| RunQueues.ChoiceUnique | phlox/kernel/scheduler.c:89-130 | The earliest thread of maximal policy among the first ten is one thread |
| RunQueues.CarrotsMonotone | phlox/kernel/scheduler.c:133-188 | Using less of the quantum never earns a smaller bonus |
| RunQueues.BonusPlain | phlox/kernel/scheduler.c:133-188 | The bonus by the percentage of the quantum used, for both kinds of policies, and the new accumulated bonus, cut to -8..8 |
| RunQueues.AccruedPlain | phlox/kernel/scheduler.c:133-188 | A nonzero bonus is added; at a zero one what was accumulated falls by one towards zero and never changes sign |
| RunQueues.DecaysToZero | phlox/kernel/scheduler.c:133-188 | After n turns without a bonus the accumulated one is n nearer to zero, and gone after eight |
| RunQueues.PolicyOrder | phlox/kernel/scheduler.c:89-130 | Which policies the choice prefers to which |
| Scheduling.Scheduler.AddThread | phlox/kernel/scheduler.c:405-443 | The thread becomes ready at its priority, cut to 127, at the tail of that queue, with the time noted; all queue and counter invariants hold |
| Scheduling.Scheduler.RaiseHead | phlox/kernel/scheduler.c:204-244 | The head of a queue moves to the queue its waiting time has earned if that is higher, and otherwise stays |
| Scheduling.Scheduler.ShuffleHeads | phlox/kernel/scheduler.c:190-248 | The shuffle of type k is the turns of the queues k, k + 8, k + 16 and so on below the highest, one after the other, each with what RaiseHead promises; no thread changes but in its dynamic priority, which only grows |
| Scheduling.Scheduler.Advance | phlox/kernel/scheduler.c:326-350 | Ticks are counted with those lost, the next type is shuffled, and every eighth tick the load is estimated |
| Aging.EarnedPlain | phlox/kernel/scheduler.c:224-230 | The priority earned is static priority, waiting time over the shuffle factor, a sixteenth of the queue and the accumulated bonus, up to 127, exactly if the sum survives its conversion to a signed 32-bit number; just beyond that it is negative |
| Aging.HeadEarns | phlox/kernel/scheduler.c:190-248 | In a shuffle of type k the head that queue p, with p % 8 = k, had before it goes to the tail of the queue it has earned when its turn comes, or stays where it is if that is not a higher one |
| Aging.OthersKeepTheirPlace | phlox/kernel/scheduler.c:190-248 | A queue loses its head at most, and only in a shuffle of its type; all behind it keep their order, and newcomers join at the tail |
| Aging.NoStarvation | phlox/kernel/scheduler.c:305-386 | Over any eight consecutive ticks the head of every queue below the highest rises to at least what its waiting had earned at the slowest shuffle factor of the time, up to 127 |
| Scheduling.Scheduler.Estimate | phlox/kernel/scheduler.c:336-350 | For every load the quantum is 60 less half the number of ready threads, but 20 at least; the shuffle factor is the stated step function, which never falls with the load and is never zero |
| Scheduling.Scheduler.Timer | phlox/kernel/scheduler.c:305-386 | Lost ticks are counted or charged; a tick counted shuffles the heads of its type, as ShuffleHeads says, and estimates the load every eighth time. Asks for rescheduling exactly when the running thread may be preempted, was not asked yet, and its quantum is used up or, a granule into it, a thread of higher priority is ready; the idle thread gives way to any |
| Scheduling.Scheduler.StopCurrent | phlox/kernel/scheduler.c:525-573 | The current thread goes on exactly if it asked to; otherwise it takes its next state and, if ready, the tail of the queue its bonus earns |
| Scheduling.Scheduler.ExtractBest | phlox/kernel/scheduler.c:575-609 | Extracts from the highest nonempty queue the chosen thread, and finds none only if all queues are empty |
| Scheduling.Scheduler.Reschedule | phlox/kernel/scheduler.c:504-627 | The thread that runs next is the chosen one, with a quantum in ticks of 4 ms, the idle thread only if no thread is ready; the one that stopped is in its next state; no thread is lost or queued twice |
| ThreadOps.ThreadTable.PurgeDeath | phlox/kernel/thread.c:270-290 | Every thread of the death list becomes dead, in order, and no other thread changes |
| ThreadOps.ThreadTable.GetStruct | phlox/kernel/thread.c:293-330 | Hands out a dead or a new thread in the birth state, never one that is alive |
| ThreadOps.ThreadTable.Create | phlox/kernel/thread.c:679-755 | The new thread is alive, suspended or ready at the tail of the queue of its priority, with its policy and interactivity; no other thread changes but the dying ones, which are dead |
| ThreadOps.ThreadTable.Suspend | phlox/kernel/thread.c:973-1040 | Refuses unknown threads, and exactly those not ready or running or about to be neither; stops the current one at once, with the next thread chosen as Reschedule says, and any other at its next turn |
| ThreadOps.ThreadTable.Resume | phlox/kernel/thread.c:1043-1063 | A suspended thread joins the tail of the queue of its priority; any other thread, and all queues, stay as they are |
| ThreadOps.ThreadTable.Sleep | phlox/kernel/thread.c:1066-1093 | The current thread, if about to go on, is asleep, and the next one is chosen as Reschedule says |
| ThreadOps.ThreadTable.SleepOther | phlox/kernel/thread.c:1096-1142 | A ready thread leaves its queue to sleep, or the call is refused and nothing changes |
| ThreadOps.ThreadTable.Exit | phlox/kernel/thread.c:912-970 | The current thread moves from the alive to the death list and never runs on |
| ThreadOps.ThreadTable.Tick | phlox/kernel/scheduler.c:305-386 | Switches exactly when the running thread must give way at this tick; then any thread other than the old and the new one is as the scheduler left it, and the old one has taken its next state; otherwise the running thread goes on, charged for the tick |
| Semaphores.Semaphore.Attempt | phlox/kernel/sem.c:508-572 | One pass of the acquire loop takes the count if it is there, gives up, joins the list's tail, or tries again |
| Semaphores.Semaphore.Up | phlox/kernel/sem.c:590-646 | Wakes, first come first served, those whose request fits what is left of the new count, and keeps the others in order; the sum is compared as 32-bit arithmetic leaves it |
| Semaphores.WokenOrKept | phlox/kernel/sem.c:616-639 | Every waiter is either woken or kept |
| Semaphores.KeptDoNotFit | phlox/kernel/sem.c:616-639 | No kept request fits what the woken ones leave |
| Semaphores.UniformWoken | phlox/kernel/sem.c:616-639 | For equal requests the first ones are woken, as many as fit |
| Semaphores.SumWraps | phlox/kernel/sem.c:603-612 | The sum is the true one exactly below 2^32, and otherwise lowers the count |
| Semaphores.SemTable.GetNextGid | phlox/kernel/sem.c:109-124 | The generation handed out and the one that comes next: they count up, wrap, and skip zero on request |
| Semaphores.GidsCountUp | phlox/kernel/sem.c:109-124 | Without a wrap or a skip any number of calls in a row give consecutive generations |
| Semaphores.GidsDiffer | phlox/kernel/sem.c:109-124 | Two calls in a row give different generations, and so different identifiers for one slot, unless both may give zero and the generation before was the last |
| Semaphores.SemTable.Create | phlox/kernel/sem.c:174-187 | Takes the lowest free slot; fails exactly when there is none |
| Semaphores.SemTable.Lookup | phlox/kernel/sem.c:190-209 | Finds a semaphore exactly if some slot holds that identifier, and in the only slot that does |
| Semaphores.IdParts | phlox/kernel/sem.c:109-124 | Slot and generation can be read back from an identifier, and none is the invalid 0 |
| SemProtocol.NeverStranded | phlox/kernel/sem.c:508-646 | In every run with requests of one size k, a nonempty list means count < k * (threads on their way + 1): nobody is stranded, barging included |
| SemProtocol.CountConserved | phlox/kernel/sem.c:508-646 | Over every run the count is what it was, plus all increases, less the requests that were met |
| SemProtocol.DownGets | phlox/kernel/sem.c:508-580 | A request that fits the count is met at once; one that does not is dropped if only tried, and joins the tail of the waiters otherwise |
| SemProtocol.LargeNeverStranded | phlox/kernel/sem.c:508-646 | Nor is anybody in any run of requests no two of which fit the maximum together |
| SemStranding.NobodyStrandedIff | phlox/kernel/sem.c:508-646 | For every set of request sizes, every maximum, every initial count and every set of threads: no run strands a waiter, if and only if there are no two sizes a < b within the maximum with 2a within it too, or there are fewer than three threads |
| SemStranding.PairNeverStranded | phlox/kernel/sem.c:508-646 | With two threads no run strands a waiter, whatever the sizes |
| Mutexes.MutualExclusion | phlox/kernel/util/mutex.c:45-97 | In every run at most one thread is past lock and not out of unlock; count and owners add up to one |
| Mutexes.OnlyOwnerSeesItself | phlox/kernel/util/mutex.c:84-97 | A thread between calls finds its own id in the holder field exactly if it owns the mutex |
| Mutexes.CanGiveBack | phlox/kernel/util/mutex.c:84-97 | Unlocking never raises the semaphore beyond its maximum |
| Mutexes.UnlockFrees | phlox/kernel/util/mutex.c:84-97 | An owner that calls unlock can clear the holder field and give the count back, nothing else and without being held up; then nobody owns the mutex, the count is 1 and the field names nobody |
| Mutexes.UnlockWakes | phlox/kernel/util/mutex.c:84-97 | If threads wait, giving back wakes the first of them, which can then pass |
| Mutexes.OthersKeepOff | phlox/kernel/util/mutex.c:45-97 | A step of another thread neither moves this one on nor takes anything from an owner |
| Mutexes.FreeIsTaken | phlox/kernel/util/mutex.c:45-81 | A free mutex goes to the next thread that tries or passes the lock; its one next step makes it the holder |
| Mutexes.OthersCannotUnlock | phlox/kernel/util/mutex.c:84-97 | An unlock by a thread that does not own the mutex changes nothing |
| Mutexes.LocksLessUnlocks | phlox/kernel/util/mutex.c:45-97 | In every run a thread has the mutex once for each lock it completed, less its completed unlocks |
| Mutexes.RecursiveExclusion | phlox/kernel/util/mutex.c:135-199 | In every run at most one thread owns the recursive mutex; its counter is the owner's nesting depth, and the holder field names it exactly while the depth is positive |
| Mutexes.OwnerNeverWaits | phlox/kernel/util/mutex.c:135-158 | An owner that locks again does not wait |
| Mutexes.RLockAgain | phlox/kernel/util/mutex.c:135-181 | An owner that locks again is one level deeper after three steps with no choice |
| Mutexes.RUnlockLevel | phlox/kernel/util/mutex.c:184-199 | An owner that unlocks gives up one level with no choice, and goes on to free the mutex exactly if that was the last |
| Mutexes.RUnlockFrees | phlox/kernel/util/mutex.c:184-199 | After the last level the holder field is cleared and the count given back, with no choice, and the mutex is free |
| Mutexes.RFreeIsTaken | phlox/kernel/util/mutex.c:135-181 | A free recursive mutex goes to the next thread that tries, one level deep |
| Mutexes.ROthersCannotUnlock | phlox/kernel/util/mutex.c:184-199 | An unlock by a thread that does not own the recursive mutex changes nothing |
| TimerQueue.Timer.Add | phlox/kernel/timer.c:136-163 | The new event gets its deadline, at its place in order, and no other deadline moves |
| TimerQueue.Timer.Pass | phlox/kernel/timer.c:278-343 | A pass of k ticks, lost ones included, fires exactly the events due by then, in order, and leaves the others k ticks closer |
| TimerQueue.AbsSorted | phlox/kernel/timer.c:136-163 | Nonnegative differences mean ascending deadlines |
| Timeouts.NeverTouchesFreed | phlox/kernel/timer.c:182-227 | No step of the handler or of a canceller touches a freed event |
| Timeouts.CancelledNeverRuns | phlox/kernel/timer.c:496-524 | Once the synchronised cancel has returned, the routine is not running and never runs, in any continuation |
| Timeouts.RoutineRunsOnce | phlox/kernel/timer.c:182-227 | In every run from the start, an event the handler has taken and freed had its routine called exactly once if no cancel took effect before the decision, and never if one did |
| Timeouts.CancelTakesEffect | phlox/kernel/timer.c:476-524 | Before the decision the plain cancel always takes effect, and the synchronised one exactly if the run lock is open |
| Timeouts.HandlerFinishes | phlox/kernel/timer.c:182-227 | A handler that took an event whose lock is open gets through by its own steps: it calls the routine unless cancelled, frees the event and is ready for the next |
| Timeouts.TimeoutServed | phlox/kernel/timer.c:182-227 | A timeout that nobody cancels is scheduled, expires, is taken and has its routine called once |
| Timeouts.MovesOnIff | phlox/kernel/timer.c:182-227 | A handler that took an event can get past its lock, in some continuation, if and only if no canceller holds the lock |
| Timeouts.StuckIff | phlox/kernel/timer.c:496-524 | In every run from the start: that handler can go on if and only if the synchronised cancel was not called for the event |
| PageLists.CountsTotal | phlox/kernel/vm/vm_page.c:76-164 | The counters by state together total all pages |
| VmPages.PageTable.SetState | phlox/kernel/vm/vm_page.c:76-164 | Changes one page's state and the lists accordingly: off its old list, to the tail of the new one; every page stays on exactly the list its state says, and every counter is the number of pages in its state |
| PageLists.ListsTell | phlox/kernel/vm/vm_page.c:76-164 | The free list holds exactly the free pages, the clear list the clear ones, the active list all others, and each counter its own state |
| VmPages.PageTable.AllocSpecific | phlox/kernel/vm/vm_page.c:408-467 | Takes the page exactly if it exists and is free, clear or unused, and changes no other |
| VmPages.PageTable.AllocSpecificRange | phlox/kernel/vm/vm_page.c:470-547 | For every range: where it ends within 32 bits, takes all its pages or none; where it does not, hands out a page it never looked at, or runs into pages it did not look for, each exactly under a stated condition |
| VmPages.PageTable.Alloc | phlox/kernel/vm/vm_page.c:550-612 | Takes the first page of the wanted list, or of the other one if that is empty, and changes no other page; panics exactly if both are empty |
| VmPages.PageTable.AllocRange | phlox/kernel/vm/vm_page.c:615-659 | For every size: takes the lowest run that fits before the last page, and fails exactly if there is none; the wrapping sum does no harm |
| PageLists.SkipSound | phlox/kernel/vm/vm_page.c:629-650 | The skip past an unusable page jumps over no run that fits |
| VmPages.PageTable.MarkInUse | phlox/kernel/vm/vm_page.c:361-405 | For every range: usable pages of it become unused and all others stay; runs off the end of the table exactly if its end wraps into it |
| KernelHeap.Heap.constructor | phlox/kernel/heap.c:122-144 | Table and heap area are disjoint, page aligned and empty; they end within the region exactly under the stated condition on its size |
| KernelHeap.Heap.RawAlloc | phlox/kernel/heap.c:160-190 | One growth of a bin appends its blocks behind all others and marks their pages, or fails for want of room, or wraps past the end of the address space, each exactly when |
| KernelHeap.Heap.Kmalloc | phlox/kernel/heap.c:192-258 | Uses the smallest bin that fits and hands out the block of it that was freed last, else the next one never used, else the first of a growth; nobody held it. Other bins keep their state, and this one's number of blocks changes only on growth; exactly when each of the three failures occurs |
| KernelHeap.Heap.Kfree | phlox/kernel/heap.c:260-327 | A live block becomes the head of its bin's free list; none of the panics is reached; other bins and all numbers of blocks stay |
| KernelHeap.Heap.LiveBlocksApart | phlox/kernel/heap.c:192-327 | Live blocks never overlap |
| KernelHeap.HeapGrows | phlox/kernel/heap.c:160-190 | After a growth the bins still split exactly into live, free and raw blocks, and the page table names the bin of every block |
| HeapBlocks.PerGrowthIsQuotient | phlox/kernel/heap.c:60-95 | Growth sizes are whole pages and whole blocks |
| HeapBlocks.RegionFits | phlox/kernel/heap.c:122-144 | Table and heap area fit a region of n bytes if and only if n holds a multiple of 2049 pages, or its odd bytes are fewer than twice the pages beyond such a multiple |
| HeapBlocks.TableFits | phlox/kernel/heap.c:122-144 | The allocation table fits before the heap area for every size |
| MemoryObjects.Vm.GetObject | phlox/kernel/vm/vm_object.c:651-675 | A handle more exactly for an object that is there and not being deleted |
| MemoryObjects.WholePagesLeast | phlox/kernel/vm/vm_object.c:216-245 | The size of an object is the least multiple of 4096 that is not below the one asked for, if and only if that is at most 0xFFFFF000; beyond it the size is 0 |
| MemoryObjects.Vm.PutObject | phlox/kernel/vm/vm_object.c:678-695 | The object goes exactly when its deletion was requested and this was the last reference, with its handles; otherwise it has one reference and one handle less. The panics of its destruction are not reached. The pages of its resident upages are free if it goes, and every other page keeps its state |
| MemoryObjects.Vm.DeleteObject | phlox/kernel/vm/vm_object.c:632-648 | Marks the object, which goes at once exactly if nothing refers to it, its pages then being free; nothing else changes |
| MemoryObjects.Vm.UnwireAll | phlox/kernel/vm/vm_object.c:203-213 | The page of every resident upage of the object is free and every other page keeps its state; the upages are unwired and otherwise as before |
| MemoryObjects.Vm.GetOrAddUpage | phlox/kernel/vm/vm_object.c:359-411 | Fails exactly beyond the end of the object; otherwise gives the universal page of that number, inserted where the list stays sorted if it was missing, and changes nothing else |
| MemoryObjects.Vm.PutSpace | phlox/kernel/vm/vm_address_space.c:603-644 | While it is referred to or not to be deleted, only its count falls. Otherwise the address space goes with exactly its mappings; every object loses the references of those k that show it, and goes exactly if its deletion was requested and it had just k; handles stay, and the pages of the objects that go are free |
| MemoryObjects.Vm.ReleaseObjects | phlox/kernel/vm/vm_address_space.c:617-639 | The teardown loop: each object loses the references of the mappings that show it and its entries for them, and goes exactly if its deletion was requested and it had no others; pages follow the objects that go |
| VmRefs.ReleasedMore | phlox/kernel/vm/vm_address_space.c:617-639 | One mapping more taken down: the objects that are gone and the references of the others are again those of all the mappings taken down |
| MemoryObjects.Vm.DeleteSpace | phlox/kernel/vm/vm_address_space.c:491-512 | Fails with no change, or marks the address space, which goes at once exactly if nothing refers to it, with its mappings and their references as in PutSpace; if it stays nothing but the mark changes |
| MemoryObjects.Vm.MapObject | phlox/kernel/vm/vm.c:414-547 | Which status; on success the object has one reference and both lists one entry more for the new mapping, and on failure nothing changes; no handle is left over and no page changes |
| MemoryObjects.Vm.Unmap | phlox/kernel/vm/vm.c:550-604 | On success exactly that mapping goes from the map and the list of its address space. Of an object, the reference and the list entry go, and the object itself exactly if its deletion was requested and this was the last reference; its pages are then free. On failure nothing changes |
| MemoryObjects.Vm.PageFault | phlox/kernel/vm/vm.c:303-392 | The page is resident afterwards: an already resident one keeps its physical page and nothing changes; otherwise it gets one that was free or clear, and no other upage and no other page changes. Ends in a panic exactly beyond the end of the object or with no page left |
| VmRefs.Unmounted | phlox/kernel/vm/vm_object.c:441-445 | A mapping taken off its object's list leaves its reference as a handle, and all counts right |
| VmRefs.MappingRemoved | phlox/kernel/vm/vm_address_space.c:286-315 | A mapping that goes leaves the lists and counts of all address spaces right |
| VmRefs.SerialPuts | phlox/kernel/vm/vm_object.c:678-695 | Any number of puts one after the other destroy the object once, at the last |
| VmRefs.DestroyedOnceIff | phlox/kernel/vm/vm_object.c:678-695 | Over every run that puts n references back, the object is destroyed at least once, and once exactly if all but one put have looked at the count before the last count-down |
| VmRefs.WholePutsDestroyOnce | phlox/kernel/vm/vm_object.c:678-695 | In every run in which each put looks right after its own count-down the object is destroyed exactly once |
| BootfsPaths.ItemsCount | phlox/tools/makebootfs/makebootfs.c:554-568 | The number of items the path splits into |
| BootfsPaths.GetItem | phlox/lib/phlox/bootfs.c:74-98 | Item idx of the path, or nothing if it is missing, empty or too long |
| BootfsPaths.SplitThenJoin | phlox/lib/phlox/bootfs.c:57-98 | The items joined by slashes are the path |
| BootfsPaths.JoinThenSplit | phlox/lib/phlox/bootfs.c:57-98 | And splitting what was joined gives the items back |
| BootfsPaths.ItemsFrom | phlox/lib/phlox/bootfs.c:57-98 | The items of two paths joined by a slash are those of the first and then those of the second |
| BootfsTree.SeenPut | phlox/tools/makebootfs/makebootfs.c:596-663 | Filling a slot changes what its own path stands for, empties everything below it, and changes no other path |
| BootfsBuilder.Builder.DirAllocEntry | phlox/tools/makebootfs/makebootfs.c:635-663 | The entry of that name, or else the first free one, now named; fails exactly on a full page without the name |
| BootfsBuilder.Builder.FsAllocFileEntry | phlox/tools/makebootfs/makebootfs.c:596-633 | Finds or makes every directory on the way and the slot for the last item; or fails for one of four stated reasons |
| BootfsBuilder.Builder.AddSection | phlox/tools/makebootfs/makebootfs.c:687-741 | One section more: its entry, its pages after all others, its bytes in the image; every path now stands for what the sections so far make of it |
| BootfsBuilder.Builder.Make | phlox/tools/makebootfs/makebootfs.c:665-755 | Pages of directories and files fill the image without overlap and every path stands for what the sections make of it; without ".." the image is built if and only if every path is good, none lies below an earlier one, and no directory is asked for more than 63 names |
| BootfsRoom.Capacity | phlox/tools/makebootfs/makebootfs.c:480-515 | A directory page takes 63 names besides the way up, and exactly that many when full |
| BootfsRoom.StaysRoomy | phlox/tools/makebootfs/makebootfs.c:596-663 | A section that found its slot leaves every directory within that room |
| BootfsPages.DecidedOwn | phlox/tools/makebootfs/makebootfs.c:596-663 | A section decides its own path exactly if no later one has that path or one above it |
| BootfsReader.Volume.Mount | phlox/lib/phlox/bootfs.c:113-137 | Accepts exactly the images with the right identification, and starts at the root |
| BootfsReader.Volume.Locate | phlox/lib/phlox/bootfs.c:160-206 | Walks the entries of the image as the reference walk does: an absolute path from the root, any other from the current directory |
| BootfsReader.Volume.Chdir | phlox/lib/phlox/bootfs.c:208-232 | Moves to the directory the path leads to, or fails and stays |
| BootfsReader.WalkOn | phlox/lib/phlox/bootfs.c:160-232 | Walking one path and then another from there is walking both joined |
| BootfsReader.FromThere | phlox/lib/phlox/bootfs.c:160-232 | From the directory that one path leads to a relative path finds what the two paths joined find |
| BootfsReader.ChdirAndLocate | phlox/lib/phlox/bootfs.c:160-232 | After a change of directory that succeeded, a relative path finds what the two paths joined found before |
| BootfsReader.SlotsFill | phlox/lib/phlox/bootfs.c:160-206 | A directory's slots fill its pages for every page size and number of pages; the root's first slot is none of them |
| BootfsReader.FileHandle.Seek | phlox/lib/phlox/bootfs.c:266-293 | The position asked for, kept within the file |
| BootfsReader.FileHandle.Read | phlox/lib/phlox/bootfs.c:295-308 | Hands over the file's bytes from the position, as many as asked for and there, and touches nothing else of the buffer |
| BootfsRoundTrip.WalkIsLook | phlox/lib/phlox/bootfs.c:160-206 | The reader's walk over the bytes of an image finds what the builder's pages hold, for every path |
| BootfsRoundTrip.LocateTells | phlox/lib/phlox/bootfs.c:160-206 | In a finished image every path leads to the entry of the section that decides it, to a directory, or nowhere |
| BootfsRoundTrip.OwnEntry | phlox/lib/phlox/bootfs.c:160-206 | A section's path leads to its own entry if and only if no later section has that path or one above it |
| BootfsRoundTrip.WayBack | phlox/lib/phlox/bootfs.c:160-206 | In an image of a script without "..": a path into a directory, up again by ".." and on finds what the path without the detour finds, if that directory exists, and nothing if not; the root has no way up |
| BootfsRoundTrip.RoundTrip | phlox/tools/makebootfs/makebootfs.c:665-755 | For paths none of which lies at or above another, each leads to an entry whose file is the section's content |
| BootfsRoundTrip.BuildAndRead | phlox/tools/makebootfs/makebootfs.c:665-755 | Building, mounting, locating, seeking and reading gives the file's own bytes, or the filler of a reserve, from the position sought; the image is built exactly if the script is buildable |
| BootfsRoundTrip.FewAreBuildable | phlox/tools/makebootfs/makebootfs.c:665-755 | Every such script of up to 63 sections with good items is built |
| Huffman.UnsoundExample | phlox/boot/pc/i386/inflate.c:422-434 | A complete set of five lengths whose one-bit tables are not sound |
| AspaceMap.OverflowExample | phlox/kernel/vm/vm_address_space.c:349-358 | Size 0xFFFFF000 with an alignment of three pages: the search is for one page, and the accepted range runs over a mapping |
| AspaceMap.AcceptedIsFree | phlox/kernel/vm/vm_address_space.c:372-403 | What the exact creation accepts is free if and only if it ends within the map |
| SemStranding.TwoSizesStrand | phlox/kernel/sem.c:508-646 | From every new semaphore with three threads or more, a run for every two mixed sizes that ends with a waiter stranded |
| Timeouts.StuckRun | phlox/kernel/timer.c:496-524 | A run from the start after which the handler never moves again while another timeout is ready |
| Timeouts.HandlerStuck | phlox/kernel/timer.c:496-524 | A handler that meets a lock a canceller took stays there in every continuation |
| HeapBlocks.RegionOverrun | phlox/kernel/heap.c:122-144 | A region of 6144 bytes is overrun |
| VmRefs.InterleavedPuts | phlox/kernel/vm/vm_object.c:678-695 | Two interleaved puts destroy the object twice |

## Findings

Properties one would expect that the code does not have, each with an input that shows it
and the exact condition under which it holds:

- Decoding tables: `huft_build` can make a table that is too wide, part of which is never
  filled (`Huffman.UnsoundExample`). For a complete set every string decodes if and only if
  `Sound` holds: the first code of every lower table is shorter than the table width, or
  exactly as long with all codes of the table of that length (`Huffman.Build`). Every call in
  inflate.c meets it (`InflateBlocks.SmallSound`).
- Aligned mappings: `size + size_pad` and `npg_align * PAGE_SIZE` can wrap, and the mapping
  then runs out of its gap (`AspaceMap.OverflowExample`). A mapping is never misplaced if and
  only if `Safe(n, npgAlign)`: neither wraps, or the request is for a page or less and the
  alignment wraps to zero (`AspaceMap.PlacementIff`).
- Exact mappings: the end of the range is not compared with the end of the map. An accepted
  range leaves the map well formed if and only if it ends within it
  (`AddressSpaces.AddressSpace.CreateExactly`, `AspaceMap.AcceptedIsFree`).
- Cancelling timeouts: `timer_timeout_cancel_sync` takes the run lock and never releases it
  (`Timeouts.StuckRun`). The handler that took an event can go on if and only if no such
  cancel was called for it before (`Timeouts.StuckIff`).
- Mixed semaphore requests: a waiter can stay in the list although its request fits the count
  and nobody is on the way (`SemStranding.TwoSizesStrand`). This cannot happen if and only if
  the request sizes are not `Mixed` or there are fewer than three threads, whatever the initial
  count (`SemStranding.NobodyStrandedIff`).
- Long waits: the earned priority is converted to a signed 32-bit number. It is the one meant if
  and only if the sum is below 2^31 or wraps to at least 127; from 2^31 to 2^32 it is negative and
  the thread does not rise (`Aging.EarnedPlain`). At the fastest shuffle factor that takes a wait
  of months.
- Semaphore identifiers: around the wrap the generation 0 is handed out twice in a row, so that a
  slot can get the same identifier again, if and only if the last generation was just given and
  neither call excludes zero (`Semaphores.GidsDiffer`, `Semaphores.SameIdTwice`).
- Object sizes: rounding up to whole pages wraps, so that an object of more than 0xFFFFF000 bytes
  has size 0; the rounded size is right if and only if the one asked for is no larger
  (`MemoryObjects.WholePagesLeast`).
- Semaphore increases: the test against the maximum is made on a 32-bit sum, which is the true
  one if and only if it is below 2^32; otherwise an increase can lower the count
  (`Semaphores.SumWraps`).
- Heap region: table and heap area overrun a region that is not whole pages
  (`HeapBlocks.RegionOverrun`), unless the condition of `HeapBlocks.RegionFits` on its size
  holds, which is exact.
- Heap near the top: the new heap pointer of a growth is a 32-bit sum; if and only if heap
  pointer and growth reach 2^32, as 0xFFFF0000 and 24 pages do, it wraps, passes the test
  against the end of the heap area and leaves the heap pointer below it
  (`KernelHeap.Heap.RawAlloc`, `KernelHeap.Heap.Kmalloc`).
- Page ranges: the end of a range of page numbers is a 32-bit sum. With it at 2^32 or beyond,
  as for page 1 and 0xFFFFFFFF pages, no page is looked at: an unchecked page is handed out, or
  the pages are taken as they come, under the conditions of
  `VmPages.PageTable.AllocSpecificRange`; marking a range runs off the table if and only if its
  end wraps into the table (`VmPages.PageTable.MarkInUse`).
- Object references: `vm_put_object` counts down and looks at the count in two accesses, so
  interleaved puts destroy an object more than once (`VmRefs.InterleavedPuts`). It is
  destroyed once if and only if all but one put have looked before the last count-down
  (`VmRefs.DestroyedOnceIff`), and so always if every put looks right after its own count-down
  (`VmRefs.WholePutsDestroyOnce`). `vm_put_aspace` has the same two accesses.

## Left out

- HuftBuild.NewTable: allocation always succeeds; the return of 3 when malloc fails, and the chain of tables that huft_free follows, are not modelled.
- Huffman.Build: code values that a zero-length symbol leaves unwritten are read by the original as whatever is in memory; here they are a marked undefined entry that no theorem relies on.
- Inflaters.Inflater.Decode: the input is a finite string and reading past its end is an outcome of its own, where the original reads on.
- InflateBlocks.InflateDynamic: a set of lengths that are all zero makes the original follow a NULL table; here this is a failure.
- Inflaters.Inflater.CopyBack: memcpy is a forward copy; the window's initial contents count as history, as the original does not check a distance against the bytes produced.
- gunzip's header parsing and its comparison of length and CRC.
- AvlTrees.AvlTree.Insert: nodes are cells of a memory, and the writes to the fields of one cell may be one update.
- AvlTrees.AvlTree.Remove: the address of the local placeholder is an unused cell given by the caller.
- avl_tree_destroy and avl_tree_destroy_nodes, and the debug comparisons of avl_tree_insert_here.
- Scheduling.Scheduler.AddThread: static priorities are not negative and the idle thread is never handed to it, as in all calls of the original.
- Scheduling.Scheduler.Reschedule: one processor; the context switch itself is not modelled.
- ThreadOps.ThreadTable.Create: stacks, names, entry points, processes and the error path of a failed creation.
- Semaphores.Semaphore.Attempt: time limits, deletion of semaphores and death of waiting threads.
- SemProtocol.NeverStranded: an increase stays within the maximum in the true sum, as `Semaphores.SumWraps` requires.
- Mutexes.RecursiveExclusion: the nesting depth is unbounded.
- TimerQueue.Timer.Pass: ticks lost before an event is added are charged to it, as in the original; deadlines are on the queue's own clock.
- Timeouts.CancelledNeverRuns: timeout identifiers are unique and were issued before they are cancelled.
- VmPages.PageTable.constructor: physical pages have numbers below 2^20, as those of a 32-bit address space do.
- VmPages.PageTable.MarkInUse: what is overwritten beyond the end of the table.
- The contents of pages and their clearing.
- KernelHeap.Heap.constructor: what is laid out ends below 2^32.
- KernelHeap.Heap.Kmalloc: what the heap does after its pointer has wrapped.
- KernelHeap.Heap.Kfree: the free count of each page, which no decision reads.
- MemoryObjects.Vm.PutObject: a put is one step here; its two halves are taken apart in `VmRefs.DestroyedOnceIff`.
- MemoryObjects.Vm.PageFault: access checks, translation maps and wired counts.
- MemoryObjects.Vm.GetOrAddUpage: the place in the list is found by a linear search instead of the tree of upages, and memory for the new one is never short.
- MemoryObjects.Vm.MapObject: why a mapping could not be created; its placement is the business of `AddressSpaces`.
- Objects over physical or virtual memory, names of objects and address spaces, and the special treatment of the kernel's address space.
- BootfsBuilder.Builder.Make: section paths may contain "..", but what they stand for is stated for plain ones only; the image stays below 2^20 pages; parsing of scripts, file access and the search for ELF entry points are parameters; both sides are little-endian.
- BootfsReader.Volume.Locate: a path must have a character after its leading slash; a read outside the image is an outcome of its own.
- BootfsReader.FileHandle.Seek: the sum of position and offset must not overflow, which is up to the caller.
- btfs_write, opening by path, and closing of files.
- Assembly, interrupts, the console, the process layer, system calls, the ELF loader and the string library.
