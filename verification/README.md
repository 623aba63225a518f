# Verified models of the kernel course modules

This project models the parts of the Linux kernel course modules that hold a real algorithm or protocol, and
proves what those parts keep or promise. Kernel services that the modules only call are modelled by short
explicit rules: a mutex or spinlock is taken when it is free, `down_interruptible` takes a permit or is
interrupted, a pending timer, tasklet or work item is pending once however often it is scheduled, an allocator
returns any address that is not in use or fails, a copy from or to user space may fault, a red-black fix-up
performs arbitrary rotations.

| file | modelled module | what is proved |
|---|---|---|
| `Bytes.dfy` | shared | overwrites of byte ranges and their newest-write reading |
| `CStrings.dfy` | shared | strings that end at the first NUL |
| `Counting.dfy` | shared | counts and sums over processes and reports |
| `BlockDevice.dfy` | RAM block device | nested request, bio and segment loops refine one flat list of overwrites; exactly when cutting matters |
| `BlockBytes.dfy` | RAM block device | the same for single bytes of segments, over whole runs of requests |
| `VirtualLog.dfy` | seq_file log | a reader pass interleaved with writers: gaps between ids are exactly the overwrites |
| `VmaDevice.dfy` | mmap device | read, write and mapped accesses through scattered frames refine one flat buffer |
| `VmaBytes.dfy` | mmap device | where each byte goes and comes from; round trips over whole runs |
| `DeadlockDemo.dfy` | two-mutex back-off | mutual exclusion, unreachable back-off, bounded own steps, for any number of processes |
| `DeferredWork.dfy` | ioctl, interrupt and workqueue demos | generic theorems on shutdown order, coalesced scheduling and the return of exit, instantiated three times |
| `IntervalTree.dfy` | interval tree | pointer descent, linking, walk and teardown over an explicit heap refine a sorted list |
| `SemaphoreDemo.dfy` | semaphore and mutex demos | conservation of permits, exact user counts, linearized accumulator |
| `AtomicDemo.dfy` | atomic counter | linearization: each effect has one owner, the log respects real time, the counter is the wrapped sum; meaning of a failed exchange |
| `RwlockDemo.dfy` | reader-writer lock | readers see whole committed pairs and never go back |
| `SpinlockDemo.dfy` | spinlock | operation numbers linearize reads and writes |
| `AllocatorDemo.dfy` | allocator tests | no leak and no double free under any pattern of failures |
| `SimpleVfs.dfy` | example file system | terminated files, chunked reads, refused directory entries |

Code that changes memory in place (the block device, the log, the mapped buffer, the tree, the allocator tests,
the file) is written as classes and methods with loops, proved against specification functions. Lock protocols
and deferred work are step machines: a run is any sequence of events, each event one atomic step of one process
or one activity, and an event that is not possible leaves the state as it is. The theorems range over all runs.

`dafny verify dfyconfig.toml` checks the whole project.

## Model

| member | source | states |
|---|---|---|
| `BlockDevice.SimpleBlockDev.constructor` | examples/class_7/01_block_device/block_demo.c:143-156 | the device starts as 1 MiB of 0xAA bytes |
| `BlockDevice.SimpleBlockDev.Transfer` | examples/class_7/01_block_device/block_demo.c:31-49 | in 64-bit arithmetic, one transfer either moves the whole byte range between device and memory or, past the end, changes nothing on either side |
| `BlockDevice.SimpleBlockDev.HandleBio` | examples/class_7/01_block_device/block_demo.c:52-81 | the segment loop refines `BioSpec`, the transfer of consecutive byte ranges, and always reports BLK_STS_OK |
| `BlockDevice.SimpleBlockDev.QueueRq` | examples/class_7/01_block_device/block_demo.c:84-102 | the bio loop refines `RequestSpec` on the final device and memory together |
| `BlockDevice.FitIsLongest` | examples/class_7/01_block_device/block_demo.c:66-78 | the number of segments `Fit` counts is the longest prefix of the bio that ends inside the device |
| `BlockDevice.TransferredIffInPrefix` | examples/class_7/01_block_device/block_demo.c:37-40 | a segment passes the bounds check if and only if it belongs to that longest prefix |
| `BlockDevice.WriteBioIsOneOverwrite` | examples/class_7/01_block_device/block_demo.c:52-81 | a write bio of any segments, in range or past the end, is one overwrite with the bytes of the longest fitting prefix; every other device byte and all memory is unchanged |
| `BlockDevice.ReadKeepsDisk` | examples/class_7/01_block_device/block_demo.c:45-48 | a read never changes the device |
| `BlockDevice.ReadBioKeeps` | examples/class_7/01_block_device/block_demo.c:66-78 | a memory byte outside the transferred segments of a read bio is unchanged |
| `BlockDevice.ReadBioGets` | examples/class_7/01_block_device/block_demo.c:66-78 | a memory byte inside them is the device byte at its offset, taken from the last segment that holds it where segments overlap |
| `BlockDevice.ReadPart` | examples/class_7/01_block_device/block_demo.c:45-48 | each transferred segment of a read holds exactly its own slice of the device |
| `BlockDevice.ReadBioIsOneSlice` | examples/class_7/01_block_device/block_demo.c:66-78 | laid end to end, the transferred segments are one contiguous slice of the device |
| `BlockDevice.ReadRequestGets` | examples/class_7/01_block_device/block_demo.c:94-98 | over several bios, a memory byte is the device byte of the last bio and segment that hold it |
| `BlockDevice.RequestIsOverwrites` | examples/class_7/01_block_device/block_demo.c:84-102 | a request changes the device by one flat overwrite per write bio, in order |
| `BlockDevice.RunIsOverwrites` | examples/class_7/01_block_device/block_demo.c:31-102 | a whole run of requests refines one flat list of overwrites |
| `BlockDevice.LastWriteWins` | examples/class_7/01_block_device/block_demo.c:31-102 | after every run each device byte is the newest write that covers it, or 0xAA if there is none |
| `BlockDevice.ReadInRange` | examples/class_7/01_block_device/block_demo.c:52-81 | an in-range read bio returns its range of the device byte for byte, however it is cut |
| `BlockDevice.ReadSeesLastWrite` | examples/class_7/01_block_device/block_demo.c:31-102 | after every run, what an in-range read bio returns is that newest-write view |
| `BlockDevice.MovesEverythingIffAligned` | examples/class_7/01_block_device/block_demo.c:74-77 | the bytes moved are all the bytes of the bio if and only if every segment is a multiple of 512; otherwise fewer |
| `BlockDevice.SameRangeSameResult` | examples/class_7/01_block_device/block_demo.c:52-81 | two cuts of the same bytes at the same place leave the same device, when the range ends inside it or starts past it |
| `BlockDevice.CutMatters` | examples/class_7/01_block_device/block_demo.c:37-40 | a write that straddles the end depends on its cut, with segments that each lie in one page: one sector per segment it writes up to the end, with the two sectors around the end in one segment it writes one sector less |
| `BlockDevice.CutIndependentIff` | examples/class_7/01_block_device/block_demo.c:37-40 | over all cuts into segments inside one page, re-cutting a write is without effect if and only if the range ends inside the device or starts at or past its end |
| `BlockBytes.PartIsSegment` | examples/class_7/01_block_device/block_demo.c:68-74 | a segment is moved from or to its own address, from its first byte to its last whole sector |
| `BlockBytes.WriteBioBytes` | examples/class_7/01_block_device/block_demo.c:52-81 | an in-range write bio puts byte x of segment k, taken at that segment's own address, at sector * 512 plus the lengths before it plus x |
| `BlockBytes.WriteBioElsewhere` | examples/class_7/01_block_device/block_demo.c:52-81 | it changes no other device byte |
| `BlockBytes.ReadBioBytes` | examples/class_7/01_block_device/block_demo.c:52-81 | an in-range read bio with separate segments puts that same device byte at byte x of segment k |
| `BlockBytes.ReadBioElsewhere` | examples/class_7/01_block_device/block_demo.c:52-81 | it changes no memory outside its segments, and not the device |
| `BlockBytes.WriteRequestBytes` | examples/class_7/01_block_device/block_demo.c:84-102 | after a write request a device byte is what the last bio that covers it took from memory |
| `BlockBytes.LastBioWins` | examples/class_7/01_block_device/block_demo.c:31-102 | after every run of requests a device byte is what the last write that covers it took from that segment's address in the memory of its time |
| `BlockBytes.NeverWritten` | examples/class_7/01_block_device/block_demo.c:156 | a byte of the device that no write of the run covers is 0xAA |
| `BlockBytes.ReadReturnsLastWrite` | examples/class_7/01_block_device/block_demo.c:31-102 | after every run a read bio returns, byte for byte, what the last writes on the same places took from memory |
| `VirtualLog.StoredReadsBack` | examples/class_3/02_advanced_procfs/pos_demo.c:29-31 | a stored message reads back as its first 63 characters |
| `VirtualLog.LogHoldsLast` | examples/class_3/02_advanced_procfs/pos_demo.c:24-43 | after any n additions the log is the last min(n, 100) of them in order, with consecutive ids ending at n |
| `VirtualLog.HeldEntry` | examples/class_3/02_advanced_procfs/pos_demo.c:24-43 | field by field, held entry i has the time and the first 63 characters of addition max(0, n - 100) + i, and the id one above |
| `VirtualLog.Log.constructor` | examples/class_3/02_advanced_procfs/pos_demo.c:18-20 | the log starts empty with next id 1 |
| `VirtualLog.Log.AddLogEntry` | examples/class_3/02_advanced_procfs/pos_demo.c:24-43 | the newest entry has the given time, the next id and the first 63 characters of the message; the others are the old entries, without the oldest if there were 100 |
| `VirtualLog.Log.Write` | examples/class_3/02_advanced_procfs/pos_demo.c:114-142 | -EINVAL over 63 bytes, then -ENOMEM, then -EFAULT, each with the log as it was; otherwise the byte count, and the newest entry reads back as the text without its newline |
| `VirtualLog.CStringOfWrite` | examples/class_3/02_advanced_procfs/pos_demo.c:131-135 | terminating and cutting the newline in the copied buffer yields exactly that message, embedded NULs included |
| `VirtualLog.Log.Start` | examples/class_3/02_advanced_procfs/pos_demo.c:46-58 | the slot of the saved position, or the end if the log is not that long |
| `VirtualLog.Log.Next` | examples/class_3/02_advanced_procfs/pos_demo.c:60-77 | the position moves by one and the slot, or the end, is that of the new position |
| `VirtualLog.Log.Show` | examples/class_3/02_advanced_procfs/pos_demo.c:85-96 | the entry shown is the one in that slot now |
| `VirtualLog.RunKeepsInv` | examples/class_3/02_advanced_procfs/pos_demo.c:24-96 | every interleaving of additions with a pass in any sessions keeps the relation of position, ids and overwrites |
| `VirtualLog.GapIsOverwrites` | examples/class_3/02_advanced_procfs/pos_demo.c:24-96 | ids shown strictly increase, and two shown in succession differ by exactly one plus the overwrites between the two shows |
| `VirtualLog.ShowOf` | examples/class_3/02_advanced_procfs/pos_demo.c:85-96 | each entry the reader got was shown at an event of the run, from the slot held, when as many overwrites had happened as it records |
| `VirtualLog.GapOverRun` | examples/class_3/02_advanced_procfs/pos_demo.c:24-96 | over the events of the run, the gap of two ids got in succession is one plus the additions between the two shows that found the buffer full |
| `VirtualLog.ShownWasAdded` | examples/class_3/02_advanced_procfs/pos_demo.c:24-96 | each entry shown has the time and the first 63 characters of the addition that its id numbers |
| `VirtualLog.CompletePassCount` | examples/class_3/02_advanced_procfs/pos_demo.c:46-77 | a pass that reaches the end has shown as many entries as the log holds, and missed exactly as many as were overwritten before or during it |
| `VirtualLog.PassCanComplete` | examples/class_3/02_advanced_procfs/pos_demo.c:46-77 | whatever has happened, a reader that keeps reading while nothing is added reaches the end |
| `VirtualLog.QuietPassShowsAll` | examples/class_3/02_advanced_procfs/pos_demo.c:46-96 | without additions, a pass in any sessions shows each held entry once, in order |
| `VmaDevice.PhysInjective` | examples/class_7/02_vma_allocation/vma_allocation.c:196-204 | different buffer offsets are different physical bytes, whatever frames vmalloc gave |
| `VmaDevice.StoreChangesOneByte` | examples/class_7/02_vma_allocation/vma_allocation.c:119-145 | a store to one physical byte of the buffer changes exactly that offset of the buffer and nothing outside it |
| `VmaDevice.PageHoldsOffset` | examples/class_7/02_vma_allocation/vma_allocation.c:50-59 | for every area and page offset, the page the handler picks is the page that holds the offset it checked, and the check fails exactly past the last page |
| `VmaDevice.PteReachesOffset` | examples/class_7/02_vma_allocation/vma_allocation.c:39-72 | an access through an installed entry reaches the physical byte of its own file offset |
| `VmaDevice.VmaDev.constructor` | examples/class_7/02_vma_allocation/vma_allocation.c:196-204 | the buffer starts as the greeting, its NUL and 0x42 in every other byte; physical memory outside it is untouched |
| `VmaDevice.VmaDev.HandleFault` | examples/class_7/02_vma_allocation/vma_allocation.c:39-72 | SIGBUS if and only if the file offset is past the buffer; otherwise the installed page is the one that holds it |
| `VmaDevice.VmaDev.Read` | examples/class_7/02_vma_allocation/vma_allocation.c:93-117 | result and new position are those of the flat reference buffer, for interrupted and faulting calls too |
| `VmaDevice.VmaDev.CopyOut` | examples/class_7/02_vma_allocation/vma_allocation.c:106-109 | copying out through scattered frames yields one slice of the buffer |
| `VmaDevice.VmaDev.CopyIn` | examples/class_7/02_vma_allocation/vma_allocation.c:134-137 | copying page by page through scattered frames is one overwrite of the buffer |
| `VmaDevice.VmaDev.Write` | examples/class_7/02_vma_allocation/vma_allocation.c:119-145 | result, position and buffer are those of the flat reference; a faulting copy leaves what landed |
| `VmaDevice.VmaDev.Mmap` | examples/class_7/02_vma_allocation/vma_allocation.c:148-171 | a mapping is admitted or refused as the reference says, by its size alone |
| `VmaDevice.VmaDev.Load` | examples/class_7/02_vma_allocation/vma_allocation.c:39-72 | a load, with its fault if needed, returns the reference byte or SIGBUS and changes no byte |
| `VmaDevice.VmaDev.Store` | examples/class_7/02_vma_allocation/vma_allocation.c:39-72 | a store, with its fault if needed, is one byte of the reference changed or SIGBUS |
| `VmaDevice.VmaDev.Replay` | examples/class_7/02_vma_allocation/vma_allocation.c:39-171 | any run of reads, writes, mappings, loads and stores gives, result by result, what the flat reference gives, and touches no physical byte outside the buffer |
| `VmaDevice.RunIsOverwrites` | examples/class_7/02_vma_allocation/vma_allocation.c:93-145 | the reference buffer after any run is one flat list of overwrites |
| `VmaDevice.LoadSeesNewest` | examples/class_7/02_vma_allocation/vma_allocation.c:39-72 | after any run a load through any mapping sees the newest byte written at its offset by any path, or SIGBUS exactly past the buffer |
| `VmaDevice.ReadSeesNewest` | examples/class_7/02_vma_allocation/vma_allocation.c:93-117 | after any run `read` sees the same newest bytes |
| `VmaBytes.TouchedByte` | examples/class_7/02_vma_allocation/vma_allocation.c:119-145 | a write puts data[k - pos] at offset k, for every k of its range inside the buffer, and a store puts its byte at the file offset of its address |
| `VmaBytes.UntouchedByte` | examples/class_7/02_vma_allocation/vma_allocation.c:119-145 | no operation changes any other byte |
| `VmaBytes.WriteReturns` | examples/class_7/02_vma_allocation/vma_allocation.c:119-145 | a write returns min(count, 16384 - position) or the error of each early exit |
| `VmaBytes.ReadReturns` | examples/class_7/02_vma_allocation/vma_allocation.c:93-117 | a read returns min(count, 16384 - position) bytes, those of the buffer from the position on, or the error of each early exit |
| `VmaBytes.LoadReturns` | examples/class_7/02_vma_allocation/vma_allocation.c:50-59 | a load returns the byte at address - start + pgoff * 4096, and faults exactly when that is past the buffer |
| `VmaBytes.MmapReturns` | examples/class_7/02_vma_allocation/vma_allocation.c:148-171 | a mapping of at most 16384 bytes is admitted at any page offset and added; a larger one is -EINVAL and changes nothing |
| `VmaBytes.LastTouchWins` | examples/class_7/02_vma_allocation/vma_allocation.c:39-145 | after any run each byte is the one that the last operation on its offset put there, by write or through any mapping |
| `VmaBytes.ReadReturnsLast` | examples/class_7/02_vma_allocation/vma_allocation.c:93-117 | round trip: a read after any run returns the bytes last put at its offsets |
| `VmaBytes.LoadReturnsLast` | examples/class_7/02_vma_allocation/vma_allocation.c:39-72 | round trip: a load after any run returns the byte last put at its offset |
| `VmaBytes.UntouchedSinceInit` | examples/class_7/02_vma_allocation/vma_allocation.c:203-204 | an offset no operation touched still has the greeting, its NUL or 0x42 |
| `DeadlockDemo.ReachInv` | examples/class_3/09_deadlock_prevention/deadlock_demo.c:13-79 | the invariant linking lock owners and program counters holds in every reachable state of any number of processes |
| `DeadlockDemo.MutualExclusion` | examples/class_3/09_deadlock_prevention/deadlock_demo.c:13-42 | each mutex has at most one holder, and the holder of b also holds a |
| `DeadlockDemo.SecondLockIsFree` | examples/class_3/09_deadlock_prevention/deadlock_demo.c:20-22 | whoever holds a and is about to try b finds b free |
| `DeadlockDemo.NeverBacksOff` | examples/class_3/09_deadlock_prevention/deadlock_demo.c:22-27 | the second trylock never fails, so the back-off release is unreachable |
| `DeadlockDemo.FailedAttempts` | examples/class_3/09_deadlock_prevention/deadlock_demo.c:18-33 | each failed attempt of a call in progress is an own step of the run, in order and within this call, at which the process was at that attempt and another process held a |
| `DeadlockDemo.ResultMeaning` | examples/class_3/09_deadlock_prevention/deadlock_demo.c:13-79 | 0 means both locks are held; -EBUSY means neither is held and there are ten such events, for attempts 0 to 9; outside a call nothing is held |
| `DeadlockDemo.CallStarts` | examples/class_3/09_deadlock_prevention/deadlock_demo.c:44-55 | in every reachable state a read at position 0 starts attempt 0 and changes nothing else; at a later position it changes nothing |
| `DeadlockDemo.FreeMeansAcquired` | examples/class_3/09_deadlock_prevention/deadlock_demo.c:44-79 | from every reachable state with a free, a call holds both mutexes after two own steps, and two more release both and end it |
| `DeadlockDemo.AcquiredIffFree` | examples/class_3/09_deadlock_prevention/deadlock_demo.c:18-35 | a decided call succeeded if and only if one of its attempts, at an event of the run, found a free |
| `DeadlockDemo.CallReturns` | examples/class_3/09_deadlock_prevention/deadlock_demo.c:55-79 | a call ends only after releasing both mutexes or with -EBUSY |
| `DeadlockDemo.RankAfter` | examples/class_3/09_deadlock_prevention/deadlock_demo.c:13-79 | while a call lasts, each of its own steps uses up rank and no step of another process adds any |
| `DeadlockDemo.CallEnds` | examples/class_3/09_deadlock_prevention/deadlock_demo.c:44-79 | under any schedule a call has ended after 22 own steps |
| `DeadlockDemo.AcquireDecides` | examples/class_3/09_deadlock_prevention/deadlock_demo.c:13-36 | under any schedule acquisition has succeeded or failed after 20 own steps |
| `DeferredWork.ReachInv` | examples/class_5/08_IOCTL/ioctl_demo.c:37-97 | for any module whose exit stops schedulers before what they schedule, what has been finished stays gone in every reachable state |
| `DeferredWork.QuietAfterExit` | examples/class_5/04_work_queues/work_queues.c:120-128 | once such an exit function has returned, nothing is pending or running |
| `DeferredWork.NoStartAfterExit` | examples/class_5/04_work_queues/work_queues.c:120-128 | and no later step of any kind starts a handler |
| `DeferredWork.EveryStartServed` | examples/class_5/08_IOCTL/ioctl_demo.c:37-71 | although schedules coalesce, every start of a scheduler is followed by a start of what it schedules by the time exit returns |
| `DeferredWork.CountBounded` | examples/class_5/08_IOCTL/ioctl_demo.c:37-71 | in every reachable state a handler has started at most as often as its only scheduler |
| `DeferredWork.IoctlOrder` | examples/class_5/08_IOCTL/ioctl_demo.c:175-192 | the exit function stops the timers before the tasklet and the work they schedule |
| `DeferredWork.IoctlComplete` | examples/class_5/08_IOCTL/ioctl_demo.c:175-192 | every activity of the module is finished by some call of exit |
| `DeferredWork.InterruptOrder` | examples/class_5/01_interrupt_processing/interrupt_processing.c:98-104 | the timer is stopped before the bottom half is flushed |
| `DeferredWork.InterruptComplete` | examples/class_5/01_interrupt_processing/interrupt_processing.c:98-104 | every activity of the module is finished by some call of exit |
| `DeferredWork.WorkQueueOrder` | examples/class_5/04_work_queues/work_queues.c:120-128 | the timer is stopped before the work is cancelled, and each cancel blocks re-scheduling before it waits |
| `DeferredWork.WorkQueueComplete` | examples/class_5/04_work_queues/work_queues.c:120-128 | every activity of the module is finished by some call of exit |
| `DeferredWork.IoctlSchedules` | examples/class_5/08_IOCTL/ioctl_demo.c:37-85 | the tasklet and the work are scheduled only by the timer interrupt, once each per firing |
| `DeferredWork.IoctlDemoRuns` | examples/class_5/08_IOCTL/ioctl_demo.c:37-97 | in every run: each timer firing is followed by a tasklet run and a work run that start after it, their counts never exceed the firings, and after exit nothing is left |
| `DeferredWork.InterruptDemoRuns` | examples/class_5/01_interrupt_processing/interrupt_processing.c:18-58 | in every run: each top half is followed by a bottom half that starts after it, the bottom count never exceeds the top count, and after exit nothing is left |
| `DeferredWork.WorkQueueDemoRuns` | examples/class_5/04_work_queues/work_queues.c:17-67 | in every run, with the delayed work re-arming itself: until the cancel each timer firing is followed by a run of the work or the work is pending; after exit nothing is pending or running and nothing starts again |
| `DeferredWork.ExitCanReturn` | examples/class_5/04_work_queues/work_queues.c:120-128 | if exit waits for no self re-arming activity to run dry, then from every reachable state, with anything pending, coalesced or running, some continuation lets exit return |
| `DeferredWork.EachExitCanReturn` | examples/class_5/08_IOCTL/ioctl_demo.c:175-192 | this holds of all three modules, so the results about the time after exit are not empty |
| `DeferredWork.KeepsFiring` | examples/class_5/04_work_queues/work_queues.c:41-48 | an activity that init arms and that re-arms itself can run any number of times before exit begins |
| `DeferredWork.PeriodicKeepsFiring` | examples/class_5/08_IOCTL/ioctl_demo.c:74-97 | this holds of both timers of the ioctl demo, the simulated interrupt, and the timer and delayed work of the workqueue demo |
| `DeferredWork.RefusedOnlyInCancel` | examples/class_5/04_work_queues/work_queues.c:123-124 | scheduling is refused only while that very activity is being cancelled |
| `DeferredWork.StartsDoNotOverlap` | examples/class_5/04_work_queues/work_queues.c:17-48 | an activity starts only when it is pending and its last run is over |
| `DeferredWork.SwappedOrderLeavesWork` | examples/class_5/01_interrupt_processing/interrupt_processing.c:98-104 | the order is needed: with the two calls exchanged there is a run after which the work is still pending |
| `IntervalTree.Replace` | examples/class_4/00_data_structures_demo/data_structures_demo.c:146 | writing a new subtree through the link of a position replaces that subtree and nothing else of the tree |
| `IntervalTree.LinkNewNode` | examples/class_4/00_data_structures_demo/data_structures_demo.c:131-146 | linking the new node at the empty link keeps a sorted tree whose walk is the sorted list with the interval inserted |
| `IntervalTree.PutRotated` | examples/class_4/00_data_structures_demo/data_structures_demo.c:147 | any rotation put back through its link keeps the nodes, the walk and the order |
| `IntervalTree.UnlinkFirst` | examples/class_4/00_data_structures_demo/data_structures_demo.c:256-260 | unlinking the first node leaves a tree that walks over all the others |
| `IntervalTree.IntervalSet.constructor` | examples/class_4/00_data_structures_demo/data_structures_demo.c:49 | the tree starts empty |
| `IntervalTree.IntervalSet.Insert` | examples/class_4/00_data_structures_demo/data_structures_demo.c:116-152 | -ENOMEM exactly without memory, -EEXIST exactly when the start is present, both with nothing changed; otherwise exactly one node more and the walk is the sorted insertion, whatever the fix-up rotates |
| `IntervalTree.IntervalSet.Descend` | examples/class_4/00_data_structures_demo/data_structures_demo.c:131-144 | the descent finds the start if it is there, and otherwise the one empty link with smaller starts on its left and larger on its right |
| `IntervalTree.IntervalSet.InsertAll` | examples/class_4/00_data_structures_demo/data_structures_demo.c:116-152 | after any run of calls on an empty tree the walk and the nodes in use are those of the reference list |
| `IntervalTree.FirstCallWins` | examples/class_4/00_data_structures_demo/data_structures_demo.c:116-152 | after any run an interval is in that list if and only if its call was the first, among those that had memory, to ask for its start |
| `IntervalTree.IntervalSet.Rotate` | examples/class_4/00_data_structures_demo/data_structures_demo.c:147 | a rotation at any node keeps the nodes in walk order |
| `IntervalTree.IntervalSet.First` | examples/class_4/00_data_structures_demo/data_structures_demo.c:190 | the first node of the walk, or NULL exactly when the tree is empty |
| `IntervalTree.IntervalSet.NextNode` | examples/class_4/00_data_structures_demo/data_structures_demo.c:190 | the node after a given one in the walk, or NULL at its end |
| `IntervalTree.IntervalSet.Show` | examples/class_4/00_data_structures_demo/data_structures_demo.c:190-193 | the listing is every interval once, strictly sorted by start |
| `IntervalTree.IntervalSet.EraseFirst` | examples/class_4/00_data_structures_demo/data_structures_demo.c:256-260 | one teardown round frees the first node and keeps the rest of the walk |
| `IntervalTree.IntervalSet.Teardown` | examples/class_4/00_data_structures_demo/data_structures_demo.c:256-260 | the loop terminates with an empty tree, having freed every allocated node exactly once |
| `IntervalTree.NodesOnce` | examples/class_4/00_data_structures_demo/data_structures_demo.c:256-260 | the walk of a tree lists each of its nodes exactly once |
| `SemaphoreDemo.PermitsConserved` | examples/class_3/07_mutex_semaphore/mutex_sem_demo.c:77-122 | in every reachable state, interrupted waiters included: free permits and holders add up to 3, the user count is exact and at most the holders, every reported count is 1, 2 or 3 |
| `SemaphoreDemo.AllReturned` | examples/class_3/07_mutex_semaphore/mutex_sem_demo.c:112-113 | whenever nobody is between down and up all three permits are free and the user count is 0 |
| `SemaphoreDemo.UncountedHolder` | examples/class_3/07_mutex_semaphore/mutex_sem_demo.c:112-113 | a process that holds a permit outside the count keeps the user count below the holders, which is why the decrement before the up bounds the reports |
| `SemaphoreDemo.ReportIsCount` | examples/class_3/07_mutex_semaphore/mutex_sem_demo.c:94 | the count a process reports is the number of processes in the count just after its own increment |
| `SemaphoreDemo.CallStarts` | examples/class_3/07_mutex_semaphore/mutex_sem_demo.c:83-88 | a read at position 0 waits for a permit, at a later position it returns at once |
| `SemaphoreDemo.FreePermitMeansUse` | examples/class_3/07_mutex_semaphore/mutex_sem_demo.c:88-113 | with a free permit a call gets it, reports one user more than there were and gives it back; without one it waits; an interrupted waiter leaves with nothing |
| `SemaphoreDemo.MutexLinearizes` | examples/class_3/07_mutex_semaphore/mutex_sem_demo.c:27-74 | each finished call reports the sum over all calls up to and including it, in the order in which they left the mutex, and its own message |
| `SemaphoreDemo.ReportsAreCalls` | examples/class_3/07_mutex_semaphore/mutex_sem_demo.c:43-58 | each report was made by the process it names, at the event at which it left the mutex |
| `SemaphoreDemo.FreeMutexMeansUpdate` | examples/class_3/07_mutex_semaphore/mutex_sem_demo.c:34-58 | with the mutex free a call adds its pid modulo 100 and reports the new value and its own message; an interrupted waiter changes nothing |
| `AtomicDemo.CounterFollows` | examples/class_3/04_atomic_operations/atomic_demo.c:45-62 | after one atomic addition or store the counter is again the unbounded value of the effects, wrapped |
| `AtomicDemo.ReachInv` | examples/class_3/04_atomic_operations/atomic_demo.c:23-77 | values, totals, ownership of effects and order of calls agree in every reachable state |
| `AtomicDemo.ReportsLinearize` | examples/class_3/04_atomic_operations/atomic_demo.c:23-77 | in every run the counter is the wrapped value of the log, operations_count is the number of counted writes, and every result, flag and printed value is the reference value at its own point of the log, which lies after the call arrived |
| `AtomicDemo.EachEffectHasOneOwner` | examples/class_3/04_atomic_operations/atomic_demo.c:23-77 | no update is lost, invented or shared: each effect of the log belongs to exactly one finished call or pending test |
| `AtomicDemo.OwnerMeans` | examples/class_3/04_atomic_operations/atomic_demo.c:45-70 | and is the effect that call stands for, by its own process |
| `AtomicDemo.CallsAreWrites` | examples/class_3/04_atomic_operations/atomic_demo.c:23-41 | each reported call is a write event of the run with its own process and command, made when as many reports and effects existed as the call records, and finished by a later step of that process |
| `AtomicDemo.LogRespectsTime` | examples/class_3/04_atomic_operations/atomic_demo.c:23-77 | the log order is a real-time order: a call reported before another was written comes before it in the log |
| `AtomicDemo.CounterIsSum` | examples/class_3/04_atomic_operations/atomic_demo.c:45-56 | in a run of additions only, in any interleaving, once no test is pending the counter is increments less decrements plus amounts added less amounts subtracted by all finished commands, wrapped to 32 bits |
| `AtomicDemo.StoreIsSeen` | examples/class_3/04_atomic_operations/atomic_demo.c:57-70 | a set, an exchange and a successful compare-and-exchange leave their own value at their point of the log |
| `AtomicDemo.CommandRuns` | examples/class_3/04_atomic_operations/atomic_demo.c:43-70 | what each command does to the counter when undisturbed, from every reachable state, and that it is counted once |
| `AtomicDemo.CommandReports` | examples/class_3/04_atomic_operations/atomic_demo.c:125-141 | what each command reports then: the new value, the old value of an exchange, or the test of the new value |
| `AtomicDemo.ExecuteOk` | examples/class_3/04_atomic_operations/atomic_demo.c:45-62 | each command, test commands included, leaves the report or pending test its meaning demands |
| `AtomicDemo.ExchangeOk` | examples/class_3/04_atomic_operations/atomic_demo.c:63-70 | the exchange reports success exactly when it stores, and otherwise the value it found |
| `AtomicDemo.FailureMeansInterference` | examples/class_3/04_atomic_operations/atomic_demo.c:63-70 | a FAILED compare-and-exchange implies an effect of another process that changed the counter between the read and the exchange |
| `RwlockDemo.ReachInv` | examples/class_3/08_rwlock_demo/rwlock_demo.c:14-84 | the invariant of lock, memory and commits holds in every reachable state |
| `RwlockDemo.PairsAreWhole` | examples/class_3/08_rwlock_demo/rwlock_demo.c:27-35 | every reader gets the last pair committed when its section began: both halves from one writer, or the initial pair |
| `RwlockDemo.CommitIsWrite` | examples/class_3/08_rwlock_demo/rwlock_demo.c:51-79 | every committed pair but the first has the value that a write event of the run asked for and the time stored by a later step of the same call |
| `RwlockDemo.OneCommitPerWrite` | examples/class_3/08_rwlock_demo/rwlock_demo.c:71-79 | different pairs come from different write events |
| `RwlockDemo.SectionIsRead` | examples/class_3/08_rwlock_demo/rwlock_demo.c:27-35 | every reader section was locked and finished at events of the run, by one process, and records what had been committed and finished when it took the lock |
| `RwlockDemo.ReadsLastWrite` | examples/class_3/08_rwlock_demo/rwlock_demo.c:27-35 | a reader gets (0, init time) if nothing was committed when it took the lock, and otherwise the value asked for and the time stored by the last write committed by then |
| `RwlockDemo.LaterReadsNewer` | examples/class_3/08_rwlock_demo/rwlock_demo.c:27-35 | a section locked after another has finished does not read an older commit |
| `RwlockDemo.LockGrants` | examples/class_3/08_rwlock_demo/rwlock_demo.c:27 | a waiting reader gets in exactly when no writer is inside, a waiting writer exactly when nobody is |
| `RwlockDemo.WriteThenRead` | examples/class_3/08_rwlock_demo/rwlock_demo.c:14-84 | from every reachable state with nobody inside, a write and then a read give back the value and its time |
| `RwlockDemo.ReadsDoNotGoBack` | examples/class_3/08_rwlock_demo/rwlock_demo.c:27-35 | of two reader sections that do not overlap the later never reads an older commit |
| `RwlockDemo.WriterIsAlone` | examples/class_3/08_rwlock_demo/rwlock_demo.c:71-79 | a writer in its section excludes every other writer and every reader |
| `SpinlockDemo.NumbersLinearize` | examples/class_3/06_spinlock_demo/spinlock_demo.c:28-32 | in every run operation numbers are 1, 2, 3, ... over readers and writers in the order their sections end, and each read is the last write with a smaller number, or 0 |
| `SpinlockDemo.NextKeepsInv` | examples/class_3/06_spinlock_demo/spinlock_demo.c:67-72 | every step of a reader or a writer keeps the relation of the shared value, the counter and the finished operations |
| `SpinlockDemo.OperationsAreCalls` | examples/class_3/06_spinlock_demo/spinlock_demo.c:12-72 | every logged operation is a call of the run, a write with the value it was asked to write |
| `SpinlockDemo.OneOperationPerCall` | examples/class_3/06_spinlock_demo/spinlock_demo.c:28-32 | different operations come from different calls |
| `SpinlockDemo.NumbersRespectTime` | examples/class_3/06_spinlock_demo/spinlock_demo.c:28-32 | a call that begins after an operation has finished gets a larger number |
| `SpinlockDemo.WriteThenRead` | examples/class_3/06_spinlock_demo/spinlock_demo.c:28-72 | from every reachable state with the lock free, a write and then a read give back the value and take the next two numbers |
| `AllocatorDemo.EachFreedOnce` | examples/class_6/01_memory_allocator_demo/mem_allocator_demo.c:65-77 | a stretch of a legal history that ends with the addresses in use with which it began frees each address exactly as often as it obtains it |
| `AllocatorDemo.LegalBalance` | examples/class_6/01_memory_allocator_demo/mem_allocator_demo.c:57-83 | in a legal history an address is freed as often as it is obtained, once less while it is in use |
| `AllocatorDemo.Regroup` | examples/class_6/01_memory_allocator_demo/mem_allocator_demo.c:210-220 | with the two chunk arrays on top of what was in use, the arrays can be freed in either order |
| `AllocatorDemo.FailuresCountNulls` | examples/class_6/01_memory_allocator_demo/mem_allocator_demo.c:65-70 | the failure count is the number of slots left NULL |
| `AllocatorDemo.SlotMeaning` | examples/class_6/01_memory_allocator_demo/mem_allocator_demo.c:65-70 | a request gets the allocator's answer unless that is NULL, was in use, or was handed out before; then NULL |
| `AllocatorDemo.Allocator.Alloc` | examples/class_6/01_memory_allocator_demo/mem_allocator_demo.c:66 | an address that is free and not NULL is handed out and marked in use; any other answer is a failure that changes nothing |
| `AllocatorDemo.Allocator.Fill` | examples/class_6/01_memory_allocator_demo/mem_allocator_demo.c:65-70 | one request per slot: the pointers are those granted, distinct and new, and the failure count is exact, for any pattern of failures |
| `AllocatorDemo.Allocator.FreeAll` | examples/class_6/01_memory_allocator_demo/mem_allocator_demo.c:73-77 | every non-null pointer is freed once, in order, and exactly what was in use before stays |
| `AllocatorDemo.Allocator.FreeEveryOther` | examples/class_6/01_memory_allocator_demo/mem_allocator_demo.c:194-199 | the even slots are freed and cleared, the odd ones keep their pointers |
| `AllocatorDemo.Allocator.TestPerformance` | examples/class_6/01_memory_allocator_demo/mem_allocator_demo.c:57-145 | whatever fails, each obtained pointer is freed once, nothing stays allocated, the failures are counted exactly |
| `AllocatorDemo.Allocator.TestFragmentation` | examples/class_6/01_memory_allocator_demo/mem_allocator_demo.c:177-223 | whatever fails, the chunks freed early are not freed again, the rest is freed once, nothing stays allocated |
| `AllocatorDemo.Allocator.FillUntilFailure` | examples/class_6/01_memory_allocator_demo/mem_allocator_demo.c:234-241 | requests stop at the first failure and the count is its index |
| `AllocatorDemo.Allocator.TestAllocationFailures` | examples/class_6/01_memory_allocator_demo/mem_allocator_demo.c:226-251 | the number reported is that of the requests before the first failure, each is freed once, nothing stays allocated |
| `SimpleVfs.AlwaysTerminated` | examples/class_7/00_vfs_obj_imp/simple_vfs.c:218-235 | over every run of writes, faulting ones included, byte 63 stays 0, so the text always fits |
| `SimpleVfs.WriteReadsBack` | examples/class_7/00_vfs_obj_imp/simple_vfs.c:218-235 | after a write the text is the string of its first 63 bytes, whatever the file held before |
| `SimpleVfs.PlainWriteReadsBack` | examples/class_7/00_vfs_obj_imp/simple_vfs.c:218-235 | a write without NULs reads back as its first 63 bytes |
| `SimpleVfs.ReadsReach` | examples/class_7/00_vfs_obj_imp/simple_vfs.c:205-215 | reads cut in any way, some faulting, reach as far as the others ask for and no further than the end |
| `SimpleVfs.Inode.constructor` | examples/class_7/00_vfs_obj_imp/simple_vfs.c:77-91 | a new file is 64 zero bytes |
| `SimpleVfs.Inode.Read` | examples/class_7/00_vfs_obj_imp/simple_vfs.c:197-216 | 0 at or past the end, -EFAULT with no movement, otherwise the bytes of the text from the position, clipped at its end |
| `SimpleVfs.Inode.Write` | examples/class_7/00_vfs_obj_imp/simple_vfs.c:218-235 | result and size are the clipped count and the file changes as `Written` says; a faulting copy keeps size and termination |
| `SimpleVfs.Inode.ReadInPieces` | examples/class_7/00_vfs_obj_imp/simple_vfs.c:197-216 | reading from 0 in any pieces concatenates to the text from its beginning |
| `SimpleVfs.DirContext.ReadDir` | examples/class_7/00_vfs_obj_imp/simple_vfs.c:238-261 | one call emits the entries from the position up to the first that is refused, and the position is that entry |
| `SimpleVfs.DirContext.ListDirectory` | examples/class_7/00_vfs_obj_imp/simple_vfs.c:238-261 | over any calls and refusals what was received is a prefix of the listing, in order, nothing repeated or skipped; one call without refusals completes it |

## Left out

- VirtualLog.Log.Write: requires at least one byte, because for an empty write the source reads the byte before its buffer, whose value is not defined.
- VirtualLog: seeking in the file (`seq_lseek`) is not an event of a pass; `next_id` is unbounded, and one addition and one show are atomic steps; the source takes no lock, so torn entries under truly simultaneous writers are not modelled.
- BlockDevice.SimpleBlockDev.Transfer: requires that the byte range does not wrap at 64 bits, which the block layer guarantees for a 1 MiB device.
- BlockDevice.SimpleBlockDev.HandleBio: requires the same of the byte range of its bio.
- BlockDevice.SimpleBlockDev.QueueRq: requires the same of each of its bios.
- BlockDevice: request queue setup, registration and the error paths of init; memory between two requests may change in any way.
- VmaDevice.VmaDev.Store: shared mappings only; a store through a private mapping, which the source also admits, goes to a copy that the kernel makes.
- VmaDevice: `munmap`, the text printed by the handlers, and what a faulting `copy_to_user` has already put into the user's buffer; each system call, fault, load and store is one step.
- DeadlockDemo: sleeping between attempts and the time it takes; steps are counted, not timed.
- DeferredWork.WorkQueueDemoRuns: assumes that the work item does not run twice at the same time; the kernel promises this for one queue, and the source queues the item on two in turn, so an instance that still runs on one queue when it is queued on the other is not modelled.
- DeferredWork: delays, priorities and the processor an activity runs on; the tasklet demo, whose exit leaves the proc file open until after the tasklets are killed.
- IntervalTree: colours and parent pointers of the red-black tree (`rb_next` is modelled by search from the root), and the list, queue and hash table of the same module, which are thin uses of kernel macros.
- SemaphoreDemo: uniqueness of resource ids, which the source's unlocked increment does not give; 32-bit wrap of the accumulator in `MutexLinearizes`; the copy to the user after the section.
- AtomicDemo: the 64-bit counter, the reference count and the bit flags, whose writes appear only as counted writes that leave this counter alone; parsing of the command text.
- RwlockDemo and SpinlockDemo: parsing, copies to the user, 64-bit wrap of the operation counter; waiting is an event that changes nothing.
- AllocatorDemo.Allocator.TestPerformance: one method stands for the three tests, which differ in the allocator called; timing and the contents written into slab objects are not modelled.
- SimpleVfs: lookup, create, unlink, superblock and dentry reference counts; negative file positions, which the kernel refuses before the call.
- All modules: registration, module parameters, log output and user-space programs.
