# A verified model of the kernel

A Dafny model of a teaching operating system kernel written in C: its intrusive lists, hash
tables, bitmaps, sorting and 64-bit division; its threads, alarm clock, semaphores, locks and
condition variables; its page allocator, malloc, page directories and ELF segment loader; its
buffer cache and indexed inodes; and its ustar headers with the integer printing they use.

`dafny verify dfyconfig.toml` checks the whole project.

## How the model is organised

- `Words`, `Options`, `Blocks`, `FiniteSets`, `DistinctLists`, `Bits`: sizes of the machine,
  missing results, bytes and sectors, finite sets, lists without repetition, and bitwise
  operations on words.
- `ListOrder`, `Lists`: doubly linked lists with two sentinels, as objects with `prev` and
  `next`. `ListOrder` says what the algorithms compute on sequences; `Lists` is the code, which
  relinks objects in place.
- `HashTable`, `Bitmap`, `Stdlib`, `Arithmetic`: the other library routines, in place on arrays
  and buckets where the source works in place.
- `Threads`, `Scheduling`, `Alarm`, `Semaphores`, `Locks`: the parts of the state of the kernel
  and what each function does to them. `Kernel` puts them together as a machine of steps: a
  step is what one thread does with interrupts off up to a context switch, or one statement
  between two such stretches, or a timer interrupt, so every interleaving that interrupts allow
  is a run. `KernelSafety` proves that every step keeps the invariant `Inv`; `KernelTheorems`
  draws the conclusions for states and runs; `KernelCalls` says what each call has done by the
  time it returns, and `KernelOrder` who runs and who is woken next, whatever happens in
  between; `KernelCode` is the code itself, on the kernel's variables, with a method for every
  step.
- `Palloc`, `Arenas`, `Malloc`: the page pools, the layout of malloc's arenas, and malloc.
- `Paging`, `PageTables`, `Elf`: page directory and page table entries, page directories, and
  the loading of a segment into a process.
- `Cache`, `FileLayout`, `FreeSpace`, `Inodes`, `FileSystem`: the write-back buffer cache, the
  encoding of inodes and index blocks, sector allocation, the catalogue of all files, and the
  inode operations. A file is specified as a sequence of bytes.
- `Stdio`, `PrintedIntegers`, `Ustar`: printf's integer conversions, what their output says,
  and archive headers.

A null pointer, an error value or a message is an `Option` or a result datatype. Integers are
unbounded except where the source's width matters; there the wrap-around is written out.

## Model

| member | source | states |
|---|---|---|
| `Lists.ListInit` | src/lib/kernel/list.c:60-68 | makes an empty list of its two sentinels |
| `Lists.ListInsert` | src/lib/kernel/list.c:168-178 | the chain has the element before the given place and is otherwise the same; a chain apart from it stays |
| `Lists.ListRemove` | src/lib/kernel/list.c:248-255 | the chain loses exactly that element, and the element after it is returned |
| `Lists.ListSplice` | src/lib/kernel/list.c:183-204 | moves a stretch of one chain into the same or another chain; both are well linked afterwards |
| `Lists.ListReverse` | src/lib/kernel/list.c:325-337 | the list links the same elements in reverse order |
| `Lists.FindEndOfRun` | src/lib/kernel/list.c:357-372 | finds the end of the maximal nondecreasing run |
| `ListOrder.RunEndIsMaximal` | src/lib/kernel/list.c:349-372 | a run is sorted and the element behind it is less than its last one |
| `Lists.InplaceMerge` | src/lib/kernel/list.c:379-399 | merges two adjacent sorted runs in place, permuting the nodes and leaving the rest of the chain |
| `ListOrder.MergeStable` | src/lib/kernel/list.c:375-399 | in a merge, equal elements of the first run come before those of the second, each in their old order |
| `Lists.SortPass` | src/lib/kernel/list.c:411-436 | one pass merges neighbouring runs pairwise and counts the runs it puts out |
| `ListOrder.PassHalvesCount` | src/lib/kernel/list.c:403-440 | a pass halves the number of runs, rounding up: the sort's termination argument |
| `ListOrder.LastPassSorts` | src/lib/kernel/list.c:437-439 | a pass that puts out at most one run leaves a sorted list |
| `Lists.ListSort` | src/lib/kernel/list.c:402-440 | the list ends sorted, with the same nodes, and equal elements keep their order |
| `Lists.ListInsertOrdered` | src/lib/kernel/list.c:442-459 | links the element before the first element that is greater, so behind its equals |
| `Lists.InsertOrderedSorted` | src/lib/kernel/list.c:442-459 | so a sorted list stays sorted |
| `Lists.ListUnique` | src/lib/kernel/list.c:461-486 | keeps the first of each run of adjacent equals; the others move, in order, to the end of the other list if there is one |
| `ListOrder.UniqueConserves` | src/lib/kernel/list.c:461-486 | kept and moved elements together are the elements of the list |
| `ListOrder.UniqueRepresents` | src/lib/kernel/list.c:461-486 | every element is still represented by an equal one that was kept |
| `ListOrder.UniqueOfSorted` | src/lib/kernel/list.c:461-486 | of a sorted list, what is kept is strictly increasing |
| `Arithmetic.Divl` | src/lib/arithmetic.c:18-37 | the divide instruction: traps exactly when the quotient does not fit in 32 bits |
| `Arithmetic.Nlz` | src/lib/arithmetic.c:39-73 | counts the leading zeros of a nonzero word |
| `Arithmetic.Udiv64` | src/lib/arithmetic.c:75-127 | the long division with one correction step is exact for all 64-bit operands, and traps only for a zero divisor |
| `Arithmetic.Umod64` | src/lib/arithmetic.c:129-135 | returns the remainder's low 32 bits, so it is the remainder if and only if that fits in 32 bits |
| `Arithmetic.Sdiv64` | src/lib/arithmetic.c:137-146 | the truncated quotient, except that -2^63 by -1 gives -2^63 |
| `Arithmetic.SignedQuotientTruncates` | src/lib/arithmetic.c:137-146 | the quotient used above is the one that rounds toward zero |
| `Arithmetic.Smod64` | src/lib/arithmetic.c:148-154 | the remainder cut down to 32 bits, which is the remainder if and only if it fits |
| `Arithmetic.MinByMinusOne` | src/lib/arithmetic.c:148-154 | -2^63 by -1 still has the remainder 0, although its quotient is wrong |
| `Stdlib.DoSwap` | src/lib/stdlib.c:66-79 | exchanges two elements in place |
| `Stdlib.Heapify` | src/lib/stdlib.c:95-123 | sinks one element so that the heap order holds from there down, permuting the first elements only |
| `Stdlib.Sort` | src/lib/stdlib.c:125-152 | heap sort: the array ends sorted and a permutation of what it was |
| `Stdlib.BinarySearch` | src/lib/stdlib.c:175-207 | finds an equal element of a sorted array, and none if and only if there is none |
| `HashTable.Hash.constructor` | src/lib/kernel/hash.c:22-42 | an empty table that satisfies the invariant |
| `HashTable.Hash.Find` | src/lib/kernel/hash.c:129-135 | finds an equal element, and none if and only if there is none |
| `HashTable.Hash.Insert` | src/lib/kernel/hash.c:94-110 | adds the element exactly when no equal one is there; otherwise returns that one and changes nothing |
| `HashTable.Hash.Replace` | src/lib/kernel/hash.c:112-127 | the element replaces the equal one, if any, which is returned |
| `HashTable.Hash.Delete` | src/lib/kernel/hash.c:137-154 | removes and returns the equal element, and nothing else |
| `HashTable.Hash.Rehash` | src/lib/kernel/hash.c:342-413 | keeps the contents whether or not memory is available; with it, the number of buckets is the greatest power of two that is at most half the elements, and at least four |
| `HashTable.IdealBucketCnt` | src/lib/kernel/hash.c:362-369 | turning off least bits ends in the greatest power of two that is no more than the wanted count |
| `HashTable.HashIterator.Next` | src/lib/kernel/hash.c:210-235 | advances by one element of what is left; ends exactly when nothing is left |
| `HashTable.Iterate` | src/lib/kernel/hash.c:181-235 | the iteration visits every element of the table exactly once |
| `Bitmap.Bits32.constructor` | src/lib/kernel/bitmap.c:76-94 | all bits are false |
| `Bitmap.Bits32.Mark` | src/lib/kernel/bitmap.c:155-166 | sets one bit of the packed words and no other |
| `Bitmap.Bits32.Reset` | src/lib/kernel/bitmap.c:168-179 | clears one bit and no other |
| `Bitmap.Bits32.Test` | src/lib/kernel/bitmap.c:196-203 | reads one bit |
| `Bitmap.Bits32.SetMultiple` | src/lib/kernel/bitmap.c:216-228 | sets a run of bits and no other |
| `Bitmap.Bits32.Contains` | src/lib/kernel/bitmap.c:247-263 | whether a run holds a bit of the given value |
| `Bitmap.Bits32.Scan` | src/lib/kernel/bitmap.c:289-310 | the first run of equal bits that is long enough, and none exactly when there is none; with a count of 0, its start |
| `Bitmap.Bits32.ScanAndFlip` | src/lib/kernel/bitmap.c:312-326 | finds that run and flips it, and changes nothing otherwise; with a count of 0 it returns 0 if and only if it starts there |
| `KernelSafety.WakeExactly` | src/devices/timer.c:165-188 | exactly the sleepers that are due are made ready, in the order of the list |
| `KernelSafety.StepKeeps` | src/threads/synch.c:60-338 | every step of threads, semaphores, locks, condition variables and the timer keeps the invariant |
| `KernelSafety.InitialInv` | src/threads/thread.c:91-122 | the invariant holds once the idle thread has started |
| `KernelSafety.RunKeeps` | src/threads/thread.c:507-585 | the invariant holds in every state of every run |
| `KernelTheorems.RunSafety` | src/threads/synch.c:60-338 | in every state of every run from the start: one running thread, no thread on two lists, no lost wakeup, mutual exclusion, no signalled thread waits for its signal |
| `KernelTheorems.OneRunning` | src/threads/thread.c:507-585 | the current thread, and no other, is running |
| `KernelTheorems.ReadyExactly` | src/threads/thread.c:238-258 | the ready list holds, each once, exactly the ready threads except the idle one |
| `KernelTheorems.WaitExactly` | src/threads/synch.c:53-76 | a semaphore's list names exactly the threads that wait for it |
| `KernelTheorems.SleepExactly` | src/devices/timer.c:92-118 | the sleep list names exactly the sleeping threads |
| `KernelTheorems.OneList` | src/threads/thread.c:222-258 | a thread is on at most one list, and not running when it is on one |
| `KernelTheorems.NoLostWakeup` | src/threads/synch.c:53-121 | while threads wait, every unit of the value belongs to a thread already woken; the value counts ups less completed downs |
| `KernelTheorems.MutualExclusion` | src/threads/synch.c:170-236 | a lock's semaphore and the thread inside make one; a thread is inside if and only if the lock says so, and no two are |
| `KernelTheorems.WaitersInside` | src/threads/synch.c:265-302 | a condition variable's list names only unsignalled threads that are still in cond_wait |
| `KernelTheorems.SignalNotMissed` | src/threads/synch.c:265-322 | a signal between the release of the lock and the wait is not missed |
| `KernelTheorems.CondWaitReturns` | src/threads/synch.c:265-302 | cond_wait returns with the lock held after exactly one signal |
| `KernelTheorems.RoundRobin` | src/threads/thread.c:124-144 | a ready thread at place p moves up with every switch, so it runs by switch p + 1 and within TIME_SLICE * (p + 1) ticks |
| `KernelTheorems.SleepersInOrder` | src/devices/timer.c:81-118 | the sleep list is sorted by wake tick, ties by arrival |
| `KernelTheorems.NoneOverdue` | src/devices/timer.c:165-188 | after a timer interrupt no sleeping thread is due |
| `KernelTheorems.NoEarlyWake` | src/devices/timer.c:165-188 | only a timer interrupt at or after its wake tick wakes a sleeper |
| `KernelTheorems.SleepsLongEnough` | src/devices/timer.c:92-118 | over any run, a thread that calls timer_sleep(n) is still in it in every later state whose clock shows less than n more ticks |
| `KernelCalls.CallReturns` | src/threads/synch.c:53-338 | over any run, at the first state where a thread is back from a call: sema_down took a unit, lock_acquire holds the lock, lock_try_acquire holds it or found it taken, lock_release opened it, cond_wait holds the lock after one signal, cond_signal signalled the first thread of the list it found and left the rest, cond_broadcast signalled all of them |
| `KernelCalls.BroadcastWakesAll` | src/threads/synch.c:324-338 | over any run, when cond_broadcast returns its list is empty, and the semaphore of every thread that was on it has been upped exactly once |
| `KernelCalls.CallStep` | src/threads/synch.c:53-338 | whatever step is taken, by whichever thread, a call in progress stays in progress or returns with its promise kept |
| `KernelCalls.WaitCall` | src/threads/synch.c:265-302 | from releasing the lock until it has it again, a thread in cond_wait is not inside the lock |
| `KernelCalls.ListKept` | src/threads/synch.c:304-338 | while a thread in cond_signal or cond_broadcast holds the lock, no other thread changes the list |
| `KernelCalls.SignalKept` | src/threads/synch.c:265-338 | a signalled thread does not return from cond_wait while the signaller holds the lock |
| `KernelOrder.FirstComeFirstServed` | src/threads/synch.c:53-121 | over any run, a thread that found p threads before it on a semaphore's list moves up one place with every up, so it is woken by up p + 1 |
| `KernelOrder.StepList` | src/threads/synch.c:265-338 | cond_wait joins the list at its end, and threads leave it from the front only |
| `KernelOrder.UpWakesFirst` | src/threads/synch.c:104-121 | sema_up adds one to the value, and the thread that waited longest leaves the list and becomes the last ready one |
| `KernelOrder.TryDownTakes` | src/threads/synch.c:78-102 | sema_try_down changes nothing if and only if the value is 0, and otherwise takes one unit |
| `KernelOrder.YieldRotates` | src/threads/thread.c:313-329 | the running thread and the ready list, in this order, turn by one |
| `KernelOrder.ExitIsForGood` | src/threads/thread.c:293-311 | over any run, a thread that has exited never runs again, and its page is freed unless it is the initial thread |
| `KernelOrder.FourTicks` | src/threads/thread.c:124-144 | over any run, a thread is preempted by the fourth timer tick since it was switched to, and by no earlier one |
| `KernelCode.Variables.constructor` | src/threads/thread.c:91-122 | the variables at the start satisfy the invariant |
| `Scheduling.ScheduleKeeps` | src/threads/thread.c:504-585 | after schedule() exactly the chosen thread runs, the ready list names exactly the ready threads, blocked threads are those on a list, and no dying thread but the initial one is left |
| `KernelCode.Variables.ScheduleNext` | src/threads/thread.c:564-585 | the whole switch |
| `KernelCode.Variables.ThreadYield` | src/threads/thread.c:313-329 | keeps the invariant and turns the running thread and the ready list by one |
| `KernelCode.Variables.ThreadCreate` | src/threads/thread.c:169-220 | keeps the invariant and adds a ready thread |
| `KernelCode.Variables.ThreadExit` | src/threads/thread.c:293-311 | keeps the invariant, and the thread is neither running nor ready afterwards, nor known unless it is the initial one |
| `KernelCode.Variables.IdleLoop` | src/threads/thread.c:402-429 | keeps the invariant when the idle thread blocks |
| `KernelCode.Variables.ResumeThread` | src/threads/synch.c:60-76 | keeps the invariant when a thread goes on after a switch, looking at its semaphore again; every call in progress goes on or returns with its promise kept |
| `KernelCode.Variables.InsertSleeper` | src/devices/timer.c:81-118 | the insertion loop puts a sleeper at its place in the ordered list |
| `KernelCode.Variables.TimerSleep` | src/devices/timer.c:92-118 | keeps the invariant and computes the wake tick |
| `KernelCode.Variables.WakeSleepers` | src/devices/timer.c:165-188 | the loop wakes the sleepers that are due, from the front |
| `KernelCode.Variables.TimerInterrupt` | src/devices/timer.c:163-188 | keeps the invariant; wakes sleepers, counts the slice, and yields when it is over |
| `KernelCode.Variables.SemaDown` | src/threads/synch.c:53-76 | keeps the invariant, and takes a unit or waits for one |
| `KernelCode.Variables.SemaTryDown` | src/threads/synch.c:78-102 | keeps the invariant; takes a unit exactly when the value was positive, and otherwise changes nothing |
| `KernelCode.Variables.SemaUp` | src/threads/synch.c:104-121 | keeps the invariant; adds a unit and makes the first waiter the last ready thread |
| `KernelCode.Variables.LockAcquire` | src/threads/synch.c:184-201 | keeps the invariant; the call is in progress, waiting or about to set the holder |
| `KernelCode.Variables.LockTryAcquire` | src/threads/synch.c:203-221 | keeps the invariant; succeeds exactly when the lock was free, and otherwise changes nothing |
| `KernelCode.Variables.LockRelease` | src/threads/synch.c:223-236 | keeps the invariant when the holder is cleared; the call then opens the lock |
| `KernelCode.Variables.CondWait` | src/threads/synch.c:265-302 | keeps the invariant when a thread gets on the list with a fresh semaphore; the call is in progress |
| `KernelCode.Variables.CondSignal` | src/threads/synch.c:304-322 | keeps the invariant; leaves an empty list alone, and otherwise has taken the first thread off the list to signal it |
| `KernelCode.Variables.CondBroadcast` | src/threads/synch.c:324-338 | keeps the invariant on entry to the loop, with the whole list still to be signalled |
| `KernelCode.Variables.GoOnInside` | src/threads/synch.c:184-338 | keeps the invariant at every later statement of these functions; every call in progress goes on or returns with its promise kept, so a broadcast returns only when it has signalled the whole list |
| `Palloc.Pool.constructor` | src/threads/palloc.c:152-170 | the bitmap takes the first pages and all others are free |
| `Palloc.BitmapFits` | src/threads/palloc.c:156-162 | the pages taken for the bitmap are the fewest that hold a bit for every page |
| `Palloc.Pool.GetMultiple` | src/threads/palloc.c:62-101 | the first run of free pages that is long enough becomes used; null exactly when there is none or none is asked for |
| `Palloc.Pool.FreeMultiple` | src/threads/palloc.c:116-142 | exactly these pages become free |
| `Palloc.PageAllocator.constructor` | src/threads/palloc.c:43-60 | two pools that do not overlap, the user pool with half the pages, or its limit if that is less, its bitmap included |
| `Palloc.PageAllocator.FreeMultiple` | src/threads/palloc.c:116-142 | pages go back to the pool that they came from |
| `Arenas.BlockToArena` | src/threads/malloc.c:266-294 | every block lies in its arena's page behind the header, and its address leads back to the arena |
| `Arenas.LiveApart` | src/threads/malloc.c:15-60 | blocks in use never overlap |
| `Arenas.NothingHeld` | src/threads/malloc.c:216-264 | when no block is in use, malloc holds no page |
| `Malloc.InitDescs` | src/threads/malloc.c:70-85 | the descriptors are the powers of two from 16 to 1024 with the blocks that fit in a page |
| `Malloc.FindDesc` | src/threads/malloc.c:100-104 | finds the smallest descriptor that is large enough: every smaller one is too small |
| `Malloc.Snug` | src/threads/malloc.c:100-113 | no block is larger than it must be: 16 bytes for at most 16, less than twice the request up to 1024, and less than a page more above |
| `Malloc.Allocator.Malloc` | src/threads/malloc.c:87-154 | a block that was not in use, with its capacity; the bytes of the other blocks stay; null only when the list is empty and no page is free, or no run of pages is long enough |
| `Malloc.RoomEnough` | src/threads/malloc.c:105-113 | the block has room for the request if and only if the request is at most 0xFFFFFFF4 |
| `Malloc.TooLarge` | src/threads/malloc.c:105-113 | every request over 0xFFFFFFF4 bytes gets the same block of 4084 |
| `Malloc.Allocator.BlockSizeOf` | src/threads/malloc.c:177-186 | the capacity of a block in use |
| `Malloc.Allocator.Free` | src/threads/malloc.c:216-264 | exactly that block is gone, and the bytes of the others stay |
| `Malloc.Allocator.Realloc` | src/threads/malloc.c:188-214 | the new block starts with the bytes of the old one, which is gone; on failure nothing changes; for every size where the copy fits the new block |
| `Malloc.CopyFits` | src/threads/malloc.c:188-214 | the copy fits if and only if the request is at most 0xFFFFFFF4 or the old block is at most 4084 bytes |
| `Paging.PageParts` | src/threads/vaddr.h:24-41 | page number, offset and rounding down agree with division by the page size |
| `Paging.RoundUp` | src/threads/vaddr.h:34-36 | rounds up to a page boundary, and to 0 exactly in the last page |
| `Paging.TableIndex` | src/threads/pte.h:32-39 | the two table indices are the high and low half of the page number |
| `Paging.SameIndices` | src/threads/pte.h:32-39 | two addresses use the same table entry if and only if they are in the same page |
| `Paging.EntryIs` | src/threads/pte.h:71-98 | an entry is the physical address of its page plus its flags |
| `Paging.ClearPresent` | src/userprog/pagedir.c:143-157 | clearing the present bit changes no other bit |
| `PageTables.PageDir.constructor` | src/userprog/pagedir.c:14-24 | a directory without user mappings whose kernel entries are those of init_page_dir |
| `PageTables.PageDir.LookupPage` | src/userprog/pagedir.c:50-86 | finds or makes the page table without changing any mapping; fails only without a free page |
| `PageTables.PageDir.SetPage` | src/userprog/pagedir.c:88-119 | adds exactly this mapping; on failure changes nothing; every page taken becomes a table |
| `PageTables.PageDir.GetPage` | src/userprog/pagedir.c:121-137 | the address in the mapped frame, and null exactly when the page is not mapped |
| `PageTables.PageDir.ClearPage` | src/userprog/pagedir.c:139-157 | removes exactly this mapping |
| `PageTables.PageDir.Destroy` | src/userprog/pagedir.c:26-48 | frees every frame, every page table and the directory, each exactly once, and nothing else |
| `Elf.ValidateSegment` | src/userprog/process.c:505-548 | accepts a header if and only if it meets the six conditions, wrap-around included |
| `Elf.Process.InstallPage` | src/userprog/process.c:674-692 | maps the page only when nothing was mapped there; fails only then or without a free page, changing nothing |
| `Elf.Process.LoadSegment` | src/userprog/process.c:550-607 | on success every page holds its part of the file followed by zeros; it fails only when the file is too short, a page is mapped already or a pool is out of pages; in any case the pages mapped before stay, and every page taken is a frame or a table of the process |
| `Elf.LoadedByte` | src/userprog/process.c:550-607 | so every byte of the segment is the file's byte or zero |
| `Elf.Process.LoadProgramSegment` | src/userprog/process.c:447-478 | on success user memory holds the file's bytes and then zeros over the whole segment, writable as the header says, and no other page is mapped, page 0 and kernel pages never; a header below page 1 or reaching past 0xC0000000, with an offset past the file or out of step with its address, or with less memory than file bytes or none, fails and changes nothing |
| `Elf.ProcessExclusive` | src/userprog/pagedir.c:26-48 | the frames of a process are mapped once and are neither tables nor the directory, so its directory may be destroyed |
| `Elf.Process.Exit` | src/userprog/process.c:248-289 | after any loads, destroying the directory frees each page that the process took exactly once and leaves every other page as it was |
| `Cache.BufferCache.constructor` | src/filesys/cache.c:16-42 | an empty cache of 128 entries represents the disk |
| `Cache.BufferCache.Find` | src/filesys/cache.c:47-57 | finds an entry of a sector, and none exactly when there is none |
| `Cache.BufferCache.Evict` | src/filesys/cache.c:60-86 | the second-chance victim is written back if dirty and becomes unused; no sector's contents are lost, and while some entry is unused no recently used sector leaves the cache |
| `Cache.BufferCache.Read` | src/filesys/cache.c:106-129 | reads what the plain disk holds, and marks the sector as recently used |
| `Cache.BufferCache.Write` | src/filesys/cache.c:132-159 | writes what a plain disk would hold afterwards, and marks the sector as recently used |
| `Cache.BufferCache.Close` | src/filesys/cache.c:89-100 | the disk holds everything that was written |
| `Cache.RunAndClose` | src/filesys/cache.c:89-168 | any sequence of reads and writes and then closing is the same as without a cache: same data read, same disk |
| `Cache.RepresentsOne` | src/filesys/cache.c:89-168 | a cache and a disk stand for exactly one plain disk |
| `FileLayout.DecodeEncode` | src/filesys/inode.c:66-77 | index blocks survive the encoding as bytes |
| `FileLayout.ReadBack` | src/filesys/inode.c:23-33 | so does an inode |
| `FileLayout.SectorCount` | src/filesys/inode.c:36-41 | the sectors of a file are the fewest that hold its bytes |
| `FileLayout.ContentRead` | src/filesys/inode.c:394-428 | bytes within one sector of a file are where the sector list says |
| `FreeSpace.SectorStore.Take` | src/filesys/free-map.c:26-41 | takes a free sector, and fails exactly when there is none |
| `FreeSpace.SectorStore.GetIndexSector` | src/filesys/inode.c:57-91 | the sector number of a block, direct or through the index block |
| `FreeSpace.SectorStore.Allocate` | src/filesys/inode.c:122-215 | succeeds exactly when the length is possible and enough sectors are free; the file then has the fewest sectors that hold its length, the new ones zeroed, and keeps its old blocks |
| `FreeSpace.CanGrowExactly` | src/filesys/inode.c:122-215 | a file can grow if and only if its length is at most 251 * 512 bytes and the fewest additional sectors, and an index sector when it passes 123, are free |
| `FreeSpace.LargestFile` | src/filesys/inode.c:122-215 | a file of 251 * 512 bytes is possible if and only if 252 sectors are free |
| `FreeSpace.BrokenHasNoLayout` | src/filesys/inode.c:122-215 | an inode that a failed allocation leaves leads to no list of sectors of the wanted length |
| `FreeSpace.SectorStore.Deallocate` | src/filesys/inode.c:219-262 | frees exactly the sectors of the file |
| `FileSystem.FileSystem.Reserve` | src/filesys/free-map.c:22-41 | a sector that belongs to no file becomes reserved, and every file stays; fails exactly when no sector is free |
| `FileSystem.FileSystem.Create` | src/filesys/inode.c:264-299 | a new file of zeros; no other file changes; sectors are conserved; success exactly when there is room |
| `FileSystem.FileSystem.Open` | src/filesys/inode.c:301-337 | one open inode per sector, counting its openers |
| `FileSystem.FileSystem.Reopen` | src/filesys/inode.c:339-346 | counts one more opener |
| `FileSystem.FileSystem.Close` | src/filesys/inode.c:355-380 | the last close of a removed file frees its sectors and its inode sector, exactly; any other close changes no file |
| `FileSystem.FileSystem.Remove` | src/filesys/inode.c:382-389 | marks the file for removal |
| `FileSystem.FileSystem.DenyWrite` | src/filesys/inode.c:494-503 | counts one more denial |
| `FileSystem.FileSystem.AllowWrite` | src/filesys/inode.c:505-512 | counts one denial less |
| `FileSystem.FileSystem.ReadAt` | src/filesys/inode.c:391-428 | every byte of the file from the offset on that is asked for, and no other, so that the read is short only at the end of the file |
| `FileSystem.FileSystem.WriteAt` | src/filesys/inode.c:430-492 | the bytes replace those of the file, which grows by zeros if needed; no other file changes; nothing happens while writes are denied |
| `FileSystem.FileSystem.ExtendTo` | src/filesys/inode.c:446-453 | the extension, with the result of inode_allocate ignored: afterwards some catalogue of files describes the disk and the open inodes if and only if the file could grow |
| `FileSystem.LongestFile` | src/filesys/inode.c:131-153 | no file can grow past 251 sectors, however many are free |
| `FileSystem.FullDisk` | src/filesys/inode.c:156-168 | on a full disk an empty file cannot get its first byte |
| `FileSystem.WrittenAt` | src/filesys/inode.c:430-492 | byte by byte: the source, the old file, or zero in a gap |
| `FileSystem.ReadYourWrite` | src/filesys/inode.c:391-492 | reading what was written gives it back |
| `Stdio.ParseFlags` | src/lib/stdio.c:343-379 | the flags before the width, with those that others cancel |
| `Stdio.ParseConversion` | src/lib/stdio.c:335-460 | flags, width, precision and type of a conversion, stars included, and exactly when both paddings are in force |
| `Stdio.FillDigits` | src/lib/stdio.c:500-512 | writes the digits and commas in reverse within the 64-byte buffer, for every 64-bit value |
| `Stdio.DigitsSpell` | src/lib/stdio.c:500-512 | the digits spell the value in every base, with commas or without |
| `Stdio.NumberSpells` | src/lib/stdio.c:500-524 | so they do with any flags and precision |
| `Stdio.Sink.Output` | src/lib/stdio.c:44-52 | stores a character only while there is room, and counts it |
| `Stdio.Sink.OutputDup` | src/lib/stdio.c:549-555 | sends a character the given number of times |
| `Stdio.Sink.FormatInteger` | src/lib/stdio.c:462-547 | sends padding, sign, prefix, zeros and digits in the order and number that flags and width ask for; fills the field if and only if it does not pad twice or needs no padding |
| `Stdio.FieldWidth` | src/lib/stdio.c:526-547 | the length of every conversion: the field or the natural length if and only if not padded twice; otherwise the field is overrun by as much as was padded |
| `PrintedIntegers.PrintRead` | src/lib/stdio.c:462-547 | in every base and with any flags, width and precision, reading a printed integer gives back its value and sign |
| `PrintedIntegers.SignShown` | src/lib/stdio.c:482-499 | a minus sign is shown if and only if the conversion is signed and the value negative, a plus sign if and only if it is signed, not negative and the flag is set, and 0x if and only if # is set and the value is not zero |
| `PrintedIntegers.SpaceShown` | src/lib/stdio.c:482-494 | the space flag without the plus flag puts a space in front |
| `PrintedIntegers.CommaPlaces` | src/lib/stdio.c:504-513 | with the flag, commas stand after every group of digits from the right and nowhere else; without it there are none |
| `PrintedIntegers.NumberLength` | src/lib/stdio.c:515-524 | a printed number has the digits its precision asks for and no leading zero beyond them, except the one that # puts before an octal number that has none |
| `PrintedIntegers.Justified` | src/lib/stdio.c:531-546 | without - the digits end the field; with - and no 0 they follow the sign and prefix that begin it; with 0 sign and prefix begin it |
| `PrintedIntegers.ArgumentRoundTrip` | src/lib/stdio.c:418-460 | the name of an argument type is read back, whatever surrounds it |
| `Stdio.ParseZeroStar` | src/lib/stdio.c:376-393 | %0*d with the width -5 has both paddings in force |
| `Stdio.ZeroStarOverruns` | src/lib/stdio.c:526-547 | and prints 7 in nine characters |
| `Stdio.ZeroPadded` | src/lib/stdio.c:462-547 | an octal number of at most w digits, with the 0 flag and width w, fills the width |
| `Stdio.SnprintfOctal` | src/lib/stdio.c:17-42 | writes the clipped conversion and a terminator into the buffer and nothing else, and returns the full length |
| `Ustar.StripAntisocialPrefixes` | src/lib/ustar.c:56-73 | computes the stripped name, which is not empty, not `..`, and starts with none of `/`, `./`, `../` |
| `Ustar.StripTwice` | src/lib/ustar.c:56-73 | stripping changes a name if and only if it is one of those, so stripping again changes nothing |
| `Ustar.LongestSociable` | src/lib/ustar.c:56-73 | what dropping prefixes leaves is the longest end of the name that starts with none of them |
| `Ustar.ParseOctalField` | src/lib/ustar.c:120-162 | accepts exactly digits ended by a space or NUL whose value fits in 32 bits, and returns that value |
| `Ustar.PrintParse` | src/lib/ustar.c:120-162 | undoes the printing of an octal field |
| `Ustar.ParsePrint` | src/lib/ustar.c:120-162 | and printing undoes the parsing of a full field |
| `Ustar.CalculateChksum` | src/lib/ustar.c:35-54 | the plain sum of all bytes of the header with its checksum field blank |
| `Ustar.BlankedSum` | src/lib/ustar.c:35-54 | counting blanks in place of the field is summing the header with the field blanked |
| `Ustar.SumIgnores` | src/lib/ustar.c:35-54 | the checksum does not depend on its own field |
| `Ustar.IsAllZeros` | src/lib/ustar.c:164-173 | whether all bytes are zero |
| `Ustar.ParseHeader` | src/lib/ustar.c:175-227 | the outcome of every check in order; a name that is returned is stripped |
| `Ustar.ParseAccepts` | src/lib/ustar.c:175-227 | which headers are accepted, byte by byte at the offsets of the format, and what is returned |
| `Ustar.OneByteCaught` | src/lib/ustar.c:175-227 | changing any one byte outside the checksum field of a valid header is detected |
| `Ustar.MakeHeader` | src/lib/ustar.c:75-118 | fails exactly for stripped names over 99 characters; otherwise every field is in place, mode 0000644 or 0000755, the fixed time, the checksum of the header with its field blank, and parsing the header gives back name, type and size |
| `Ustar.ParseMade` | src/lib/ustar.c:75-227 | a header with these fields and its checksum parses to them |

## Findings

What the code does not do, with the exact condition in the member named.

- malloc (src/threads/malloc.c:109): the page count of a request wraps around. A request over
  0xFFFFFFF4 bytes gets a block of 4084 (`Malloc.TooLarge`); a block has room for the request if
  and only if the request is at most 0xFFFFFFF4 (`Malloc.RoomEnough`). realloc inherits this: what
  it copies fits if and only if the request is at most that or the old block is at most 4084 bytes
  (`Malloc.CopyFits`), and `Malloc.Allocator.Realloc` is stated for these calls.
- sdiv64 (src/lib/arithmetic.c:140): -2^63 divided by -1 gives -2^63; every other quotient is
  right (`Arithmetic.Sdiv64`).
- umod64 and smod64 (src/lib/arithmetic.c:132, 151) return 32 bits. The result is the remainder
  if and only if the remainder fits (`Arithmetic.Umod64`, `Arithmetic.Smod64`).
- ustar_make_header (src/lib/ustar.c:102) prints a negative size as a large unsigned number;
  the header is then made but refused by the parser. This happens exactly for regular files of
  negative size (`Ustar.MakeHeader`).
- A negative width argument of a printf conversion asks for left justification after the zero
  flag was settled (src/lib/stdio.c:390-393), so a field can be padded on both sides
  (src/lib/stdio.c:541-546) and come out too wide. Both paddings are in force if and only if the
  width argument is negative, `0` is given, `-` is not, and there is no precision
  (`Stdio.ParseConversion`); the field is then overrun if and only if it needed padding
  (`Stdio.FieldWidth`). `%0*d` with -5 is such a conversion (`Stdio.ParseZeroStar`), and prints 7 in
  nine characters (`Stdio.ZeroStarOverruns`).
- bitmap_scan_and_flip (src/lib/kernel/bitmap.c:312-326) is documented to return 0 for a count of
  0. It returns its start argument, which is 0 if and only if it starts at 0
  (`Bitmap.Bits32.ScanAndFlip`).
- inode_write_at (src/filesys/inode.c:446-453) does not look at the result of inode_allocate: the
  new length is set and the inode written with pointers missing. The disk and the open inodes are
  consistent afterwards if and only if the file could grow, that is, has at most 251 sectors and
  finds enough free ones (`FileSystem.FileSystem.ExtendTo`). `FileSystem.LongestFile` and
  `FileSystem.FullDisk` are inputs where it could not.

## Left out

- Malloc.Allocator.Malloc: arena headers and free lists are fields of the model; the bytes that they take up in pages are not tied to them, so the contracts speak of the bytes of blocks in use.
- Malloc.Allocator.Realloc: calls where the copy does not fit the new block (see Findings).
- FileSystem.FileSystem.WriteAt: a write that needs more sectors than the file can get; its extension is modelled, and the writes to missing sectors that follow are not.
- FileSystem.FileSystem.Open: a sector that holds no inode.
- FileSystem.FileSystem.Remove: the inodes of the free map and of the root directory, which are never removed.
- FreeSpace.SectorStore.GetIndexSector: indexes past the end of the file.
- FreeSpace.SectorStore.Take: more than one sector at a time, and a failure to write the free map's file.
- HashTable.Hash.constructor: hash_init when malloc fails.
- Bitmap.Bits32.constructor: bitmap_create when malloc fails.
- PageTables.PageDir.constructor: pagedir_create when no page is free.
- Palloc.Pool.GetMultiple: the flags that zero the pages and that panic on failure.
- KernelCode.Variables.ThreadCreate: the error when no page is free.
- KernelCode.Variables.CondBroadcast: a caller that does not hold the lock, which the comment on cond_broadcast rules out.
- Stdio.SnprintfOctal: formats other than a zero-padded octal conversion.
- FileSystem.FileSystem.Close: an opener that denied writes allows them again before it closes, as the comment on inode_allow_write requires.
- Stdio.ParseConversion: widths and precisions are unbounded; the source's int would overflow.
- KernelSafety.StepKeeps: each condition variable is used with one lock, and thread numbers are not reused.
- The doubly indirect block of inodes, directories, path names, and the free map's own file.
- Priorities, nice values and load averages; process creation, wait and system calls.
- The accessed and dirty bits of page table entries and the flushing of the TLB.
- Locking inside malloc, palloc and the buffer cache: each call is one step.
- calloc, hash_clear, hash_apply, list_max and list_min, bitmap_count and the other small queries.
- printf's string, character and pointer conversions.
- Devices, the boot loader and start-up.
- The length update at the end of inode_write_at, which never does anything, and the test for reloading in buffer_cache_write after an eviction, which is always true.
- Whether memory for a hash table, an open inode or a bounce buffer is available is a parameter.
