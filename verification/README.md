# MinimalistOS kernel: verified model

This project models the parts of the MinimalistOS kernel that keep state (the process table, the keyboard
ring, physical pages, page tables, the heap, devices, the RAM filesystem, the program loader, number
printing and log formatting, message passing, monitoring and the character device) and proves what each
of them keeps over every run.

`dafny verify dfyconfig.toml` checks the whole project.

## How it is organised

One module per component of the kernel. Each component has

* a class whose fields are the C statics; its methods follow the C functions branch by branch and state the
  whole new state (`View() == ...`) in terms of the old one;
* the same state as a value, with the functions the methods are proved against;
* for each of these functions a law that says what it yields field by field, byte by byte or index by index,
  without the function itself or its helpers;
* the properties, as lemmas about those functions and about runs of any length.

Integers are unbounded in Dafny, so every `uint32_t` sum is written with its wrap-around (`Wrap`), C's
truncating division is written out (`TruncDiv`, `TruncMod`), and the bitwise operators are defined on the
binary expansion in `Bits`, where their arithmetic meaning is proved.

A pointer into a static array is an index or an offset, and `NULL` is -1 or 0 as the component needs it.
Strings are the characters before the terminator; `CStrings` proves the library routines of the name tables
against that reading.

| file | component |
|---|---|
| `Common.dfy`, `Bits.dfy`, `CStrings.dfy` | shared definitions; 32-bit words and bitwise operators; NUL-terminated strings |
| `Scheduler.dfy` | `kernel/process.c` |
| `Keyboard.dfy` | `drivers/keyboard.c` |
| `Pages.dfy`, `Paging.dfy`, `Heap.dfy` | `kernel/memory.c` |
| `Devices.dfy` | `kernel/device.c` |
| `RamFs.dfy` | `fs/ramfs.c` |
| `Loader.dfy`, `ElfFormat.dfy` | `kernel/program_loader.c`; the file format it reads, as the System V ABI (gABI chapter 5) lays it out |
| `Numbers.dfy`, `Formatter.dfy` | `kernel/string.c`, `kernel/log.c` |
| `Ipc.dfy` | `kernel/ipc.c` |
| `LogRing.dfy`, `Timers.dfy`, `Monitor.dfy` | `kernel/monitor.c` |
| `CharDevice.dfy` | `drivers/char_device.c` |

## Where the code does less than it seems to promise

Each of these is kept as coded, with the exact condition under which the code does meet the promise.

* `ipc_receive` lowers the count but leaves the tail (`kernel/ipc.c:64`). A send appends exactly when the
  tail has not drifted (`Ipc.SendAppendsExactly`); the drift counts the messages taken modulo 16
  (`Ipc.DriftCountsReceives`); send, receive, send, receive returns the first message twice
  (`Ipc.FirstMessageTwice`). With the tail moved back every run is a selective FIFO.
* While `next_pid` is 1 `schedule` returns at once (`kernel/process.c:160-162`), so a process created in the
  exited kernel's slot is never dispatched: `Scheduler.ReadyRunsExactly`, `Scheduler.StarvedAfterKernelExit`.
* `free_page` trusts its caller; the counter stays right exactly when the page was marked
  (`Pages.CounterAgreesExactly`): freeing page 300 at boot leaves 255 counted over 256 marked
  (`Pages.CounterAfterStrayFree`). It also frees page 0, whose address `alloc_page` answers for a full
  bitmap: 0 means full exactly while page 0 is marked (`Pages.ZeroMeansFullExactly`, with
  `Pages.ZeroAfterFreeingPageZero` as an instance).
* Names longer than their buffer are stored cut and compared in full: `Devices.RegisterUnregister`,
  `RamFs.OpenCreatesExactly`, `RamFs.LongNameTwice`, `Timers.LongNameReadsZero`.
* The empty name is accepted for a timer, and marks its slot as free (`kernel/monitor.c:225`): another name's
  start takes the slot over (`Timers.EmptyNameLost`) with the total left in it (`Timers.EmptyNameInherited`). A
  name is measured in every run exactly when it is neither empty nor too long (`Timers.MeasuredExactly`), and
  names in use together exactly when none of them is (`Timers.AllMeasuredExactly`).
* `%u`, `%x` and `%X` go through the signed printer: `Formatter.UnsignedExactly`.
* `kmalloc` and `kmalloc_aligned` decide with a sum that may wrap (`Heap.RefusesExactly`), the rounding of
  `kmalloc_aligned` may wrap (`Heap.StartsBehindExactly`, with `Heap.AlignmentZero` as an instance), `kcalloc`
  takes the product in 32 bits (`Heap.ProductExactly`, `Heap.ProductLost`) and clears beyond the heap when its
  sum wraps (`Heap.ClearedExactly`). `kmalloc_aligned` reaches multiples of the alignment exactly when that has
  one bit (`Heap.StartsAlignedExactly`, with `Heap.TwelveIsFour` as an instance), and aligns the offset, while
  `kernel/memory_test.c:18-19` expects an aligned address (`Heap.AddressAlignedExactly`).
* `map_page` ORs flags into the address: `Paging.MapHonouredExactly`, with `Paging.FrameMoved` as an instance.
* `ramfs_read` and `ramfs_write` cut the count by a sum that may wrap: the copy stays in the file's block
  exactly when the end of the range is below 2^32, and runs past the whole data area otherwise
  (`RamFs.ClampedExactly`, with `RamFs.NotClamped` as an instance). Their one caller, `fs/vfs.c:245-276`,
  passes both numbers on unchecked.
* `program_load` takes a segment's block by sums that may wrap and does not compare file size with memory
  size: a segment lies in the block it is granted exactly when neither goes wrong
  (`Loader.SegmentInBlockExactly`, with `Loader.WrappedSegment` and `Loader.FileBytesOverrun` as instances). It
  reads headers 32 bytes apart whatever `e_phentsize` says: they lie in the table exactly when entries have 32
  bytes or more (`Loader.TableInBlockExactly`, with `Loader.ShortEntries` as an instance), and are the ones the
  format means exactly when entries have 32 bytes or there is at most one (`Loader.HeadersInPlaceExactly`, with
  `Loader.LongEntries` as an instance).
* The loader's base and size describe the loaded span exactly when no segment before the first lowest one
  reaches further than those from it on (`Loader.SpanExactly`, with `Loader.SpanTooShort` as an instance).

## Preconditions

Methods ask for what the code needs to stay inside its own memory: buffers as long as what is copied to or
from them, an argument list that suits the format, and virtual addresses behind the two directory entries
that exist (`kernel/memory.c:95` assumes the page table exists). Where a sum that wraps gets past the code's
own check, the precondition excludes just the calls of that kind: `RamFs.CopyFits`, `Loader.GoodFile` and
the condition of `Heap.KernelHeap.Kcalloc`; `Loader.GoodFile` also excludes files whose headers the loop
would read from behind the table, or whose segments would be written behind the arena. Each condition has
its lemma in the list above.

## Model

| member | source | states |
|---|---|---|
| Scheduler.ProcessTable.constructor | kernel/process.c:40-57 | after `process_init` the kernel runs in slot 0, the other seven slots are empty and `next_pid` is 1 |
| Scheduler.BootMeaning | kernel/process.c:40-57 | the table after `process_init`, slot by slot |
| Scheduler.ProcessTable.ProcessCreate | kernel/process.c:59-92 | the lowest empty or zombie slot becomes the named ready process and its index is returned; with eight live processes the table is unchanged and the answer is -1 |
| Scheduler.ProcessTable.ProcessExit | kernel/process.c:94-103 | the current process becomes a zombie and the processor goes to the ready slot met first round the table |
| Scheduler.ProcessTable.ScheduleNext | kernel/process.c:156-199 | the outgoing process is charged one tick and preempted, and the ready slot at the least distance modulo 8 is dispatched, although the scan runs modulo `next_pid`; without a ready slot nothing else changes |
| Scheduler.NothingReady | kernel/process.c:193-198 | a scan of eight vain probes has seen every slot, the current one included, so the fallback after the loop finds nothing to restore |
| Scheduler.ProbeStep | kernel/process.c:175-180 | the probes meet the slots in the order of their distance round the whole table of eight |
| Scheduler.CreateTakesLowestFree | kernel/process.c:59-92 | a create fills the lowest slot that is empty or a zombie's with a ready process of that pid and name, touches no other slot, and fails exactly when no slot is either |
| Scheduler.Run | kernel/process.c:59-199 | every run of creates, exits and schedules keeps the table well formed: slots are empty exactly from `next_pid` on, pid equals index, and only the current slot can be running |
| Scheduler.ExactlyOneRuns | kernel/process.c:156-199 | after `schedule`, with a second slot in use and anything runnable, exactly the current slot is running |
| Scheduler.DispatchOrder | kernel/process.c:175-190 | the slot dispatched is the first runnable one counting up from the current slot, round the end of the table, and last the current slot itself |
| Scheduler.ScheduleMeaning | kernel/process.c:156-199 | every field of every slot after `schedule`: the dispatched slot runs, the preempted one is ready, only the outgoing process has one tick more |
| Scheduler.ExitLeavesZombie | kernel/process.c:94-103 | after an exit the slot that ran is a zombie, and never running |
| Scheduler.ZombieStays | kernel/process.c:94-103 | it stays one through every run until a create takes its slot |
| Scheduler.OnlyReadyDispatched | kernel/process.c:164-184 | only runnable processes are dispatched, zombies stay zombies, identities are kept, and only the outgoing process gains a tick |
| Scheduler.TurnAdvances | kernel/process.c:94-103 | one `schedule` or exit dispatches a waiting process or brings the current slot strictly nearer to it |
| Scheduler.BoundedWaiting | kernel/process.c:156-199 | in every interleaving of creates, exits and schedules a ready process behind the current one runs, untouched, within its distance, at most seven turns |
| Scheduler.DistanceIs | kernel/process.c:175-180 | the distance is the number of steps up the table modulo 8, 1 to 8 |
| Scheduler.TurnsSnoc | kernel/process.c:94-199 | the turns are the events that are not creates |
| Scheduler.ReadyRunsExactly | kernel/process.c:159-162 | a ready process is dispatched within eight `schedule` calls exactly when `next_pid` is above 1 |
| Scheduler.StarvedAfterKernelExit | kernel/process.c:159-162 | kernel exit followed by a create reaches a ready process that no `schedule` dispatches |
| Keyboard.Driver.constructor | drivers/keyboard.c:45-48 | the ring starts empty and no modifier is set |
| Keyboard.Driver.Handler | drivers/keyboard.c:84-158 | one interrupt moves the modifiers and stores the character the scancode types, as `Keyboard.TypedAfter`, `Keyboard.SpecialCodes`, `Keyboard.LockCodes` and `Keyboard.HoldCodes` describe them, unless there is none or the ring is full |
| Keyboard.Driver.GetChar | drivers/keyboard.c:160-169 | the oldest waiting character is returned and leaves the ring; NUL and no change when none waits |
| Keyboard.LocksAreParities | drivers/keyboard.c:119-130 | a lock is on when its key was pressed an odd number of times since it was off |
| Keyboard.HeldSinceLast | drivers/keyboard.c:99-118 | shift, ctrl and alt are down when the last scancode of their keys was a press |
| Keyboard.TypedMeaning | drivers/keyboard.c:133-147 | releases and modifier keys type nothing; caps lock exchanges the cases of letters and changes no other key |
| Keyboard.TypedAfter | drivers/keyboard.c:138-147 | after any scancodes a key types the shifted table's character exactly when the last shift code was a press, as it stands or, after an odd number of caps presses, with letters in the other case |
| Keyboard.TypedWithoutShift | drivers/keyboard.c:138-147 | without a shift code among them the shift state is the initial one |
| Keyboard.SpecialCodes | drivers/keyboard.c:88-141 | the backspace types character 8 in every state; releases, modifiers and codes from 58 on type nothing |
| Keyboard.LockCodes | drivers/keyboard.c:119-130 | caps, num and scroll lock count the presses 0x3A, 0x45 and 0x46 |
| Keyboard.HoldCodes | drivers/keyboard.c:98-118 | shift, ctrl and alt follow the last of their own press and release codes |
| Keyboard.OfferedMeaning | drivers/keyboard.c:84-158 | what is offered grows by the character each scancode types, if any |
| Keyboard.PushIsEnqueue | drivers/keyboard.c:151-155 | storing is enqueueing into a queue of at most 255 that ignores arrivals when full |
| Keyboard.PopIsDequeue | drivers/keyboard.c:166-168 | advancing the read pointer removes exactly the oldest character |
| Keyboard.RunKeepsInv | drivers/keyboard.c:84-169 | every interleaving of interrupts with the reader's memory accesses keeps stored = returned + waiting and the reader's registers consistent with the ring |
| Keyboard.InterruptSafeQueue | drivers/keyboard.c:84-169 | from an empty ring, under every interleaving, what was returned is a prefix of what was stored, the rest waits, at most 255 wait, and what was stored is what the scancodes typed less the arrivals at a full ring |
| Keyboard.KeptMeaning | drivers/keyboard.c:151-155 | the characters stored are the offered ones that found room |
| Keyboard.ScancodesSnoc | drivers/keyboard.c:84-85 | the scancodes of a run are those of its interrupts |
| Keyboard.DroppedExactlyWhenFull | drivers/keyboard.c:89-93 | an arrival is dropped exactly when 255 characters wait |
| Keyboard.NothingLost | drivers/keyboard.c:84-169 | if the ring is never full, returned followed by waiting is everything typed, in order |
| Keyboard.EmptyAnswerIsTrue | drivers/keyboard.c:161-164 | a call answers NUL exactly when nothing waits at the moment it loads the write pointer |
| Keyboard.InterruptedGetChar | drivers/keyboard.c:160-169 | a call made while characters wait returns the oldest of them however often it is interrupted |
| Keyboard.UninterruptedCall | drivers/keyboard.c:160-169 | the six accesses of an undisturbed call have the effect of `keyboard_getchar` as one step |
| Pages.Allocator.constructor | kernel/memory.c:21-33 | exactly the first 256 pages are marked and the counter says 256 |
| Pages.Allocator.AllocPage | kernel/memory.c:70-79 | marks the lowest free page, counts it and returns its address; 0 and no change when every page is marked |
| Pages.Allocator.FreePage | kernel/memory.c:82-88 | unmarks the page the address lies in and lowers the counter modulo 2^32; addresses beyond the managed memory are ignored |
| Pages.AnswerIsLowest | kernel/memory.c:70-79 | the address answered is that of the lowest unmarked page |
| Pages.MarkPage | kernel/memory.c:73 | OR-ing in bit `i % 32` of word `i / 32` marks page i and no other |
| Pages.UnmarkPage | kernel/memory.c:85 | AND-ing with the complement unmarks page i and no other |
| Pages.AllocatorRuns | kernel/memory.c:70-88 | over every run from boot whose frees are of held pages the counter is the population count, allocation never gives a held page or one below 256, and 0 means exactly that the bitmap is full |
| Pages.CounterAgreesExactly | kernel/memory.c:84-87 | a free keeps counter and bitmap in agreement exactly when the page was marked or is out of range |
| Pages.CounterAfterStrayFree | kernel/memory.c:84-87 | freeing page 300 at boot leaves 255 counted over 256 marked pages |
| Pages.ZeroMeansFullExactly | kernel/memory.c:70-79 | an answer of 0 means a full bitmap exactly when page 0 is marked |
| Pages.ZeroAfterFreeingPageZero | kernel/memory.c:70-88 | after page 0 is freed at boot the counter is right and the next answer is 0 although a page is free |
| Pages.TakeRelease | kernel/memory.c:70-88 | allocating and freeing a page restores bitmap and counter |
| Pages.TakeReleaseAddress | kernel/memory.c:70-88 | so does freeing by the address answered |
| Paging.PageTables.constructor | kernel/memory.c:36-54 | both windows point at one table whose entry i maps page i present and writable |
| Paging.MappedExactly | kernel/memory.c:47-50 | the two windows are the low 4 MB and the 4 MB from 0xC0000000 on |
| Paging.InitialEntries | kernel/memory.c:41-45 | entry i is page i with the bits for present and writable |
| Paging.PageTables.MapPage | kernel/memory.c:91-103 | exactly the entry of the address's page is replaced |
| Paging.PageTables.UnmapPage | kernel/memory.c:106-118 | exactly the entry of the address's page is cleared |
| Paging.MapEntry | kernel/memory.c:91-103 | the entry has just the bits of frame and flags, so an aligned frame's low 12 bits are the flags; no other entry changes |
| Paging.UnmapEntry | kernel/memory.c:106-118 | the whole entry is cleared, the present bit included; no other entry changes |
| Paging.PageTables.GetPhysAddr | kernel/memory.c:121-132 | the frame of the address's page plus the offset in the page |
| Paging.InitialTranslation | kernel/memory.c:41-50 | after `paging_init` the low 4 MB translate to themselves and the high window to themselves minus 0xC0000000 |
| Paging.MapTranslates | kernel/memory.c:91-103 | mapping an aligned page redirects exactly that page, through either window |
| Paging.MapHonouredExactly | kernel/memory.c:99 | the frame asked for is the frame used exactly when it is aligned and the flags bring no address bit it lacks |
| Paging.FrameMoved | kernel/memory.c:99 | frame 0x1800 is used as 0x1000, and frame 0x2000 with flags 0x1000 as 0x3000 |
| Paging.AliasesAgree | kernel/memory.c:47-50 | an address and its alias 0xC0000000 higher translate alike in every table |
| Paging.RunTranslates | kernel/memory.c:91-132 | after any run of maps and unmaps both windows translate a page to what the last event on it asked for |
| Heap.KernelHeap.Kmalloc | kernel/memory.c:145-153 | the answer and the new position for every size, wrap-around included |
| Heap.KernelHeap.KmallocAligned | kernel/memory.c:175-186 | the answer and the new position for every size and alignment, wrap-around included |
| Heap.KernelHeap.Kcalloc | kernel/memory.c:189-198 | a block is given as by `kmalloc` and exactly its bytes are zeroed; asked only that a sum which wraps is refused |
| Heap.RequestMeaning | kernel/memory.c:145-186 | without wrap a request gets the next bytes or the first aligned ones, rounding only what follows them, and nothing exactly when they do not fit |
| Heap.RefusesExactly | kernel/memory.c:146-181 | `kmalloc` and `kmalloc_aligned` refuse just the blocks that do not fit exactly when the 32-bit sum does not wrap into the heap |
| Heap.StartsBehindExactly | kernel/memory.c:177 | the rounded start does not fall back into given blocks exactly when rounding does not wrap and the alignment is not 0, or the heap is empty |
| Heap.AlignmentZero | kernel/memory.c:177-183 | with alignment 0 a block starts over at the heap's base |
| Heap.ClearedExactly | kernel/memory.c:193-195 | what `kcalloc` clears lies in the heap exactly when position plus size does not wrap |
| Heap.HeapRuns | kernel/memory.c:145-198 | over any mix of requests without wrap all blocks lie in the heap, one behind the other, and the position stays within HEAP_SIZE + 3 |
| Heap.PlainRuns | kernel/memory.c:145-153 | without aligned requests the position stays a multiple of 4 within HEAP_SIZE |
| Heap.BoundIsTight | kernel/memory.c:151 | position HEAP_SIZE + 3 is reached |
| Heap.StartsAlignedExactly | kernel/memory.c:177 | the rounded start is a multiple of the alignment from every position exactly when the alignment has one bit |
| Heap.TwelveIsFour | kernel/memory.c:177 | alignment 12 gives start 4 behind position 1 |
| Heap.AlignedBlocks | kernel/memory.c:177 | blocks for an alignment of one bit are aligned relative to the heap's base |
| Heap.AddressAlignedExactly | kernel/memory_test.c:18-19 | their addresses are aligned exactly when the heap array is |
| Heap.ProductExactly | kernel/memory.c:190 | the block `kcalloc` gives, up to the next block's start, has the bytes its caller counts on exactly when the product is below 2^32 |
| Heap.ProductLost | kernel/memory.c:190 | 65536 objects of 65536 bytes get an empty block |
| Devices.DeviceList.DeviceRegister | kernel/device.c:16-31 | a page is taken and the device, its name cut to 31 characters, becomes the head of the list; -1 and no change when no page is free |
| Devices.DeviceList.DeviceUnregister | kernel/device.c:34-53 | the first device of that name leaves the list, the others keep their order, and its page is freed; -1 and no change otherwise |
| Devices.DeviceList.DeviceFind | kernel/device.c:56-67 | the address of the most recent device of that name, 0 for none |
| Devices.DeviceList.DeviceFindByNumber | kernel/device.c:70-81 | the address of the most recent device with both numbers, 0 exactly when there is none |
| Devices.FindsMostRecent | kernel/device.c:16-31 | a new registration is the answer for its name exactly when the name fits, and other names keep their answers |
| Devices.RegisteredFields | kernel/device.c:16-31 | what a registration stores, field by field, and where |
| Devices.FindsNumber | kernel/device.c:23-81 | a new device is the answer for its numbers, whatever its name, and other numbers keep theirs |
| Devices.UnregisterRevealsOlder | kernel/device.c:34-53 | unregistering a name reveals the registration it shadowed |
| Devices.UnregisterKeepsOthers | kernel/device.c:34-53 | unregistering a name changes no other name's answer |
| Devices.UnregisterFrees | kernel/device.c:34-53 | unregistering frees just the page of the device removed |
| Devices.RegisterUnregister | kernel/device.c:16-53 | register then unregister restores list, bitmap and counter exactly when the name has at most 31 characters |
| Devices.RunSound | kernel/device.c:16-53 | in every run beside other page users the nodes lie on pairwise distinct allocated pages above the first megabyte |
| Devices.FindFollowsHistory | kernel/device.c:16-67 | after every run `device_find` answers the page of the last registration of the name that no unregister has undone, and 0 when there is none |
| CStrings.Strlen | kernel/string.c:102-108 | the number of characters before the terminator |
| CStrings.Strcmp | kernel/string.c:52-58 | zero exactly on equal strings, negative exactly when the first comes first in dictionary order |
| CStrings.BeforeIsDictionaryOrder | kernel/string.c:52-58 | that order is decided by the first difference, a proper prefix first |
| CStrings.Strncpy | kernel/string.c:79-86 | the first n characters become the source cut to n and padded with NULs, whether or not the source is terminated behind them; nothing else is touched |
| CStrings.StoreName | kernel/device.c:20-21 | with the terminator stored behind it the buffer holds the name cut to n characters |
| CStrings.TerminatesExactly | kernel/string.c:79-86 | the copy alone is terminated exactly when the name is shorter than n |
| RamFs.RamDisk.constructor | fs/ramfs.c:53-62 | after the initialising loop there are no files |
| RamFs.RamDisk.FindFile | fs/ramfs.c:74-85 | the first file of that name, or none |
| RamFs.RamDisk.FindFreeSlot | fs/ramfs.c:88-98 | the first unused slot, which is the one behind all files |
| RamFs.RamDisk.CreateFile | fs/ramfs.c:101-141 | a new last file with the given bytes, or zeros where none are given; -1 and no change when it is too large, exists, or there is no slot |
| RamFs.RamDisk.OpenFile | fs/ramfs.c:144-165 | the inode of the file, created first when that is asked for |
| RamFs.OpenExisting | fs/ramfs.c:144-165 | opening a file that exists answers one above its slot and changes nothing |
| RamFs.OpenMissing | fs/ramfs.c:149-160 | without leave to create, opening a missing file answers -1 |
| RamFs.RamDisk.ReadFile | fs/ramfs.c:177-201 | delivers exactly the bytes of the range that lie in the file and touches nothing else; asked only when there are bytes to deliver: that the range's end does not wrap and the buffer takes them |
| RamFs.RamDisk.WriteFile | fs/ramfs.c:204-234 | the part that fits 4096 bytes overwrites the range of this file as `RamFs.WriteMeaning` describes it; asked only when there is such a part: that the range's end does not wrap and the buffer has it |
| RamFs.WriteMeaning | fs/ramfs.c:213-233 | byte by byte: the first min(count, 4096 - offset) bytes stand from the offset on, the size is the larger of old size and their end, the rest of the file and every other file are as before; any other write changes nothing |
| RamFs.ReadMeaning | fs/ramfs.c:186-197 | byte by byte: the bytes of the range as far as the file goes, none from its end on |
| RamFs.ReadAfterWrite | fs/ramfs.c:177-234 | however long after a write, until the file is written again, a read of the range delivers the bytes the write answered for |
| RamFs.WriteThenRead | fs/ramfs.c:177-234 | the same through the two calls |
| RamFs.ClampedExactly | fs/ramfs.c:192-222 | the copy stays below the limit exactly when the end of the range does not wrap, and runs past the data area otherwise |
| RamFs.NotClamped | fs/ramfs.c:192-222 | 0xFFFFFFFF bytes at offset 1 are not cut |
| RamFs.RamDisk.GetStat | fs/ramfs.c:237-253 | inode, size, mode and type of the file of that name |
| RamFs.WrittenArea | fs/ramfs.c:224-230 | a copy into slot i's block at i*4096 changes that file's content and no other |
| RamFs.CreatedArea | fs/ramfs.c:122-137 | the block at index*4096 becomes the new file's content and the other files are as before |
| RamFs.ReadBack | fs/ramfs.c:177-234 | reading back a write yields the bytes written, and the size becomes the larger of old size and end |
| RamFs.OutsideUnchanged | fs/ramfs.c:224-230 | bytes outside the written range are unchanged, and a gap reads as zeros |
| RamFs.CreateRefines | fs/ramfs.c:101-141 | creating adds one entry to the map from names to contents |
| RamFs.WriteRefines | fs/ramfs.c:204-234 | writing changes the map at one name only |
| RamFs.RunKeepsSound | fs/ramfs.c:101-234 | with names that fit, every reachable state has at most 64 files of at most 4096 bytes with different names |
| RamFs.RunRefines | fs/ramfs.c:101-234 | with names that fit, every run over the slots is the run of a map from names to contents over the same calls, refused ones included |
| RamFs.InodeForever | fs/ramfs.c:144-165 | a name keeps its inode in every run |
| RamFs.CreatedIsFound | fs/ramfs.c:127-128 | a file just created is found by its name exactly when the name fits |
| RamFs.OpenCreatesExactly | fs/ramfs.c:149-165 | opening a missing file for creation succeeds exactly when the name fits and a slot is free |
| RamFs.LongNameTwice | fs/ramfs.c:110-128 | a name above 255 characters can be created twice |
| Loader.ValidateElf | kernel/program_loader.c:60-94 | accepts exactly 32-bit little-endian executables for the i386 |
| Loader.ProgramLoader.AllocMemory | kernel/program_loader.c:97-108 | the aligned offset and the new end of the arena, or a refusal, wrap-around included |
| Loader.ProgramLoader.FreeMemory | kernel/program_loader.c:111-116 | gives memory back exactly when the block ends at the arena's end, in 32-bit addresses |
| Loader.ProgramLoader.LoadSegment | kernel/program_loader.c:187-210 | on success, and exactly when it fits and the file has its bytes, the segment stands in its block, file bytes up to its memory size and then zeros; nothing below the old end changes |
| Loader.ProgramLoader.LoadSegments | kernel/program_loader.c:172-212 | succeeds exactly when every loadable segment fits; then all stand in their blocks and the span is the fold over the headers |
| Loader.ProgramLoader.Load | kernel/program_loader.c:119-221 | succeeds exactly on loadable files, and then leaves a loaded program, as `ElfFormat.LoadsExactly` and `ElfFormat.LoadedProgram` describe them for encoded files; the arena below the old end never changes; asked only that the file does not make the loader leave its arena or pass a check by a sum that wraps |
| ElfFormat.HeaderParses | kernel/program_loader.c:14-36 | of a file that starts with an encoded ELF header the loader reads the nine fields it uses |
| ElfFormat.PhdrParses | kernel/program_loader.c:38-47 | of an encoded program header, anywhere in any file, it reads the five fields it uses |
| ElfFormat.LoadsExactly | kernel/program_loader.c:119-221 | an encoded file loads exactly when its header is valid, table and segments' bytes are in the file, and table and page-aligned blocks fit behind the arena's end |
| ElfFormat.LoadedProgram | kernel/program_loader.c:147-219 | then the arena holds its encoded program headers and, in disjoint page-aligned blocks behind them, every segment byte by byte, file bytes first and then zeros; the entry point is the header's |
| ElfFormat.ReportedSpan | kernel/program_loader.c:165-185 | for ascending addresses base and size reported are those of the smallest interval with every segment in it |
| Loader.SegmentInBlockExactly | kernel/program_loader.c:188-210 | a granted segment lies in its block exactly when its file size is at most its memory size and the sums stay below 2^32 |
| Loader.ContainedExactly | kernel/program_loader.c:97-108 | for segments of the format the loader keeps to its blocks exactly when the arena refuses or the sum stays below 2^32 |
| Loader.WrappedSegment | kernel/program_loader.c:97-108 | two pages at 0xFFFFF000 are granted one page |
| Loader.FileBytesOverrun | kernel/program_loader.c:188-203 | a block of one page is granted for two pages of file bytes |
| Loader.TableInBlockExactly | kernel/program_loader.c:147-173 | a granted header table holds every header the loop reads exactly when entries have 32 bytes or more and the sum stays below 2^32 |
| Loader.ShortEntries | kernel/program_loader.c:147-173 | of a table of 64 bytes 128 are read |
| Loader.HeadersInPlaceExactly | kernel/program_loader.c:172-177 | every header is read where the format places it exactly when entries have 32 bytes or there is at most one |
| Loader.LongEntries | kernel/program_loader.c:172-177 | with entries of 40 bytes the second header is read 8 bytes early |
| Loader.PhdrCopied | kernel/program_loader.c:156-177 | a header read from the arena during the loop is the file's header |
| Loader.BlocksDisjoint | kernel/program_loader.c:188 | the blocks are page aligned, disjoint, behind the header table and inside the arena |
| Loader.SpanExactly | kernel/program_loader.c:179-185 | base and size describe the smallest interval covering all segments exactly when no segment before the first lowest one reaches further than all from it on |
| Loader.LoadedSpanExactly | kernel/program_loader.c:165-185 | that holds of the span reported for every program that fits the arena and the file |
| Loader.SpanTooShort | kernel/program_loader.c:179-185 | segments at 0x2000 and then 0x1000 are reported as 0x1000..0x2000, although the first ends at 0x3000 |
| Loader.SpanOfAscending | kernel/program_loader.c:179-185 | they do for ascending addresses |
| Loader.SpanOfLoads | kernel/program_loader.c:174 | headers that are not loadable leave the span alone |
| Numbers.Print | kernel/string.c:111-142 | the buffer holds the sign and the digits and a NUL, and nothing behind it is touched; an unsupported base gives the empty string |
| Numbers.StoreDigits | kernel/string.c:126-132 | the loop stores the digits of the magnitude from the lowest on, for every value including the least |
| Numbers.ReverseRange | kernel/string.c:134-139 | the exchange loop reverses exactly the digits |
| Numbers.RoundTrip | kernel/string.c:111-142 | parsing the text gives the value in base 10 and the magnitude in every other base from 2 to 36 |
| Numbers.PrintsInjectively | kernel/string.c:111-142 | different values print differently in base 10 |
| Numbers.Canonical | kernel/string.c:126-132 | only zero starts with a zero |
| Numbers.DigitTable | kernel/string.c:130 | the digits are 0 to 9 and a to z |
| Numbers.DigitsMeaning | kernel/string.c:126-132 | the last digit is the remainder, those before it are the quotient's |
| Numbers.SignExactly | kernel/string.c:121-124 | a minus sign stands first exactly for negative values in base 10 |
| Numbers.PrintedDecimal | kernel/string.c:111-142 | -407 prints as -407 |
| Numbers.PrintedHex | kernel/string.c:111-142 | -255 prints as ff in base 16 |
| Numbers.FitsBuffers | kernel/log.c:70-90 | the 12-byte decimal and the 9-byte hexadecimal buffer are large enough for every value |
| Formatter.Vsnprintf | kernel/log.c:53-143 | for every format, matching arguments and size the first min(length, size - 1) characters of the full rendering and a NUL are written, nothing behind them, and that count is returned; the rendering is what the rows below say |
| Formatter.PlainText | kernel/log.c:60-63 | text without `%` stands for itself |
| Formatter.PlainPart | kernel/log.c:59-63 | a rendering splits in front of a conversion |
| Formatter.AtConversion | kernel/log.c:65-138 | and behind it: a conversion stands for its argument, `%%` for `%`, an unknown one for itself |
| Formatter.ArgumentsTaken | kernel/log.c:67-123 | which letters take an argument, and of which type |
| Formatter.DecimalParses | kernel/log.c:68-77 | `%d` prints the value in base 10 |
| Formatter.TextConversions | kernel/log.c:109-123 | `%s` prints the string, `(null)` for none, and `%c` the character |
| Formatter.LetterCases | kernel/log.c:88-108 | `%x` prints no upper-case letter and `%X` no lower-case one |
| Formatter.PrintNumber | kernel/log.c:53-143 | a number formatted between two texts stands between them in the buffer, as its digits in base 10 |
| Formatter.UnsignedExactly | kernel/log.c:78-107 | `%u` shows the value exactly below 2^31, `%x` and `%X` exactly up to 2^31 |
| Ipc.Queue.IpcSend | kernel/ipc.c:16-39 | the outcome and the whole ring after a send; without data the bytes the slot held are sent |
| Ipc.Queue.IpcReceive | kernel/ipc.c:41-70 | the oldest message that is for the receiver and from the sender named is returned and the ring compacted; otherwise no change (`Ipc.RingReceives`, `Ipc.RingReceivesFirst`) |
| Ipc.RingReceives | kernel/ipc.c:48-69 | there is no answer exactly when no slot of the window holds a message for that receiver from that sender, or from any when none is named |
| Ipc.RingReceivesFirst | kernel/ipc.c:48-65 | otherwise the first such slot is handed over, field by field, and the other messages keep their order |
| Ipc.RingSends | kernel/ipc.c:16-39 | a send is refused for a full queue, then for its length; else it fills the slot at the tail, field by field, and no other |
| Ipc.ContentsAt | kernel/ipc.c:48-50 | the window is the slots from the head on |
| Ipc.ReceiveExactly | kernel/ipc.c:52-65 | the ideal receive takes message k exactly when its receiver and sender fit and no earlier message's do |
| Ipc.ReceiveNothingExactly | kernel/ipc.c:48-69 | and nothing exactly when none fits |
| Ipc.Queue.Compact | kernel/ipc.c:58-62 | the loop closes the gap in place, for every head and count |
| Ipc.RemovedContents | kernel/ipc.c:55-65 | a receive takes exactly the message found and keeps the order of the others |
| Ipc.SendAppendsExactly | kernel/ipc.c:25-36 | a send appends whatever it is given exactly when the tail is at the end of the window |
| Ipc.DriftStep | kernel/ipc.c:64 | as written every receive that takes a message moves the window's end away from the tail by one; with the retreat nothing does |
| Ipc.DriftCountsReceives | kernel/ipc.c:64 | the drift after any run is the number of messages taken, modulo 16 |
| Ipc.InStepIsIdeal | kernel/ipc.c:16-70 | a run whose sends find the tail in step answers, call by call, like the ideal selective queue |
| Ipc.SendsThenReceives | kernel/ipc.c:16-70 | as written this covers every run of sends followed by receives |
| Ipc.RetreatStaysInStep | kernel/ipc.c:64 | with the tail moved back on receive it covers every run |
| Ipc.FirstMessageTwice | kernel/ipc.c:41-70 | send, receive, send, receive returns the first message twice |
| Ipc.ChannelFifo | kernel/ipc.c:41-70 | on each sender-receiver channel the ideal queue is first in, first out, without loss or duplication |
| Ipc.ChannelSnoc | kernel/ipc.c:52-53 | a channel is the subsequence of the messages of its sender and receiver |
| Ipc.TakenSnoc | kernel/ipc.c:55-65 | the messages taken are those handed over |
| Ipc.AcceptedSnoc | kernel/ipc.c:16-39 | the messages accepted are those of the sends that succeeded |
| LogRing.EntriesAreTheLatest | kernel/monitor.c:55-97 | entry i is the i-th oldest of the last 256 messages, cut to 255 characters, stamped with its number modulo 2^32 |
| LogRing.EntryFields | kernel/monitor.c:62-97 | the five fields of entry i, from the call it records |
| LogRing.UnderflowHarmless | kernel/monitor.c:94 | the 32-bit underflow does not change the index because 256 divides 2^32 |
| Monitor.SystemMonitor.Init | kernel/monitor.c:33-52 | ring and timers are cleared, the clock runs on, and the first message is logged |
| Monitor.SystemMonitor.LogMessage | kernel/monitor.c:55-82 | one entry replaces the oldest and the clock advances by one |
| Monitor.SystemMonitor.GetLogEntry | kernel/monitor.c:91-97 | the entry at the computed index, or none beyond the count |
| Monitor.SystemMonitor.StartTimer | kernel/monitor.c:220-233 | the first slot that is free or carries the name is started; its total is kept |
| Monitor.SystemMonitor.EndTimer | kernel/monitor.c:236-247 | the running timer of that name is charged the elapsed log calls and stopped |
| Monitor.SystemMonitor.GetTimerValue | kernel/monitor.c:250-260 | the total of the slot of that name, 0 for none |
| Timers.RunKeepsInv | kernel/monitor.c:220-247 | the used slots stay a packed prefix of different names, each total following the history |
| Timers.ValueIsMeasured | kernel/monitor.c:220-260 | over any run a timer's value is the number of log calls inside its completed last-start-to-end intervals, modulo 2^32, for the first sixteen names started, and 0 for others |
| Timers.ValueOfFew | kernel/monitor.c:220-260 | with at most sixteen names that holds for every name |
| Timers.LongNameReadsZero | kernel/monitor.c:226-260 | a name above 31 characters reads zero after every run |
| Timers.MeasuredExactly | kernel/monitor.c:220-260 | a name is measured in every run in which it gets a slot exactly when it has 1 to 31 characters |
| Timers.AllMeasuredExactly | kernel/monitor.c:220-260 | names used together, a good one among them, are all measured in every run exactly when each has 1 to 31 characters |
| Timers.EmptyNameLost | kernel/monitor.c:225 | started, one message, another name started, ended: the empty name reads 0 for one call |
| Timers.EmptyNameInherited | kernel/monitor.c:225-229 | a name started after the empty one was measured reads 1 without any call |
| CharDevice.Device.Read | drivers/char_device.c:31-45 | delivers the first min(size, count) buffered bytes and leaves the rest; accepted remains delivered followed by buffered |
| CharDevice.Device.Write | drivers/char_device.c:47-61 | accepts and appends the first min(size, 1024 - count) bytes; accepted remains delivered followed by buffered |
| CharDevice.PutMeaning | drivers/char_device.c:53-58 | byte by byte what a write adds to the buffer and to what was accepted |
| CharDevice.TakeMeaning | drivers/char_device.c:37-42 | byte by byte what a read takes from the buffer and adds to what was delivered |
| CharDevice.Device.Ioctl | drivers/char_device.c:63-88 | clears, reports the count or the size, or refuses |
| CharDevice.Device.Open | drivers/char_device.c:20-25 | empties the stream |
| CharDevice.Lossless | drivers/char_device.c:20-88 | over every run of the calls' own transitions, the bytes accepted since the last reset are the bytes delivered followed by the bytes buffered |

## Left out

- Register-level and hardware code: boot files, `kernel/context.c`, interrupt tables, port I/O, control registers and TLB flushes; a context switch is an opaque step.
- `kernel/process.c`: stacks, contexts and entry points of processes, `scheduler_ticks` (read by nobody), `process_print_list`.
- Keyboard: the contents of the two scancode tables are arbitrary 58-entry tables; controller set-up and LEDs. The handler is one step, because it is not interrupted.
- `vfs_simple.c` and `vfs.c`: the loader's file is a byte sequence behind seek and read; a file that cannot be opened is `None`.
- NULL arguments where the code only returns its error code for them: file and timer names, log messages, `stat`. NULL buffers are modelled in the RAM filesystem, the formatter, the message queue and the character device.
- `ramfs_init`: the two heap requests, which the 32 KB heap of `kernel/memory.c:16` cannot serve, and the three default files, which are ordinary creates. The model starts from a zeroed data area.
- Loader.ProgramLoader.Load: what happens in memory when a copy leaves the arena, or a later block overlaps an earlier one, after a sum that wrapped. Of a segment with more file bytes than memory, the bytes behind its block are not described. The state of the arena's end after a failure is only bounded from below.
- RamFs.RamDisk.ReadFile: what happens in memory when the copy leaves the data area.
- RamFs.RamDisk.WriteFile: the same.
- Heap.KernelHeap.Kcalloc: what happens in memory when the clearing leaves the heap.
- `program_execute`, `program_cleanup`, system statistics and performance metrics, log levels and colours: no state worth a property.
- `kernel/network.c`, `kernel/power.c`, `kernel/security.c`, `kernel/syscall.c`, `kernel/shell.c`, `drivers/block_device.c`, `fs/filesystem_enhanced.c`: they would only add easy members or keep no invariant the code intends.
- Preemption inside a kernel call: scheduler, allocator, filesystem and queue calls are atomic steps; only the keyboard ring is interleaved.
