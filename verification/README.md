# KessokuOS: a verified model of its hardest parts

This project models the parts of KessokuOS (an i686 hobby kernel and its
bootloader) whose correctness depends on many steps working together, and proves
what they promise. Where the code does not keep a promise, the model keeps the
code as it is, gives a concrete input or the whole failing family, and proves
exactly when the promise holds.

## What is modelled

**The kernel heap** (`malloc`, `free`, the size-sorted free index and the vector
under it). Three levels:

- `MemoryManager` and `FcVector`: the classes, updated in place, with the
  bisection and shifting loops. Every method is proved equal to a function of
  `HeapMachine`.
- `HeapMachine`: the same operations on a memory of 32-bit words, in which block
  headers and client data live side by side. It is defined for every memory,
  broken links included, and keeps the code's 32-bit wrap-around in sizes.
- `HeapModel`: the heap as an address-ordered list of blocks and a sorted index.
  `HeapRefinement` proves that the machine refines it; `HeapInvariant`,
  `HeapLayout`, `HeapProperties`, `HeapFrame`, `HeapRuns` and `HeapTheorems` prove
  the results about single calls and whole runs. `HeapOverflow` follows freed blocks,
  `HeapFreeAll` the freeing of everything, `HeapLoss` and `HeapOverlay` the wrong
  `prev` links. `HeapHeaders` is about `free` where not even the block list is known
  to be right. `HeapExamples` and `HeapFull` are concrete runs.

Two invariants are kept apart. `Valid` is everything the allocator aims at.
`Sound` is the part that survives when the 2048-entry index drops a block or a wrong
link keeps two unused blocks apart: the blocks tile the heap and the index lists
unused blocks by size. `free` next to a dropped block fails half-way, and the
block-level `TryFree` does the same.

A parameter `linksBack` selects the code as written (`false`) or the code with one
store added (`true`): the split in `malloc` never writes the `prev` link of the
block behind the remainder. The block-level heap records the links left behind in
`stale`. Freeing a block with such a link ends in one of four ways, which the model
tells apart: the link is right after all; it names a block in use, and `free` works
without joining the block before; it names nothing in the index, and `free` fails; or
it names an index entry, and `free` joins across the blocks in between (`JoinsFar`).
Only that last case ends what the block-level run describes. A link may also name an
address at which there is no block any more; what `free` then reads there decides.

**The VGA terminal** (`Vga`): an 80 x 25 buffer scrolled by copying, proved to show
a window of the terminal of `UnboundedTerminal`, which never scrolls. `NumberText`
holds the number formats.

**The keyboard path** (`RingBuffer`, `QueueInterrupts`, `ScancodeTables`,
`Keyboard`): the ring buffer, alone and with the interrupt handler running between
any two memory accesses of `pop_front`, and the scancode set 2 decoder.

**The floppy driver** (`FloppyGeometry`, `FloppyRead`, `FloppyIrq`): disk addresses,
`read_data` with its cylinder buffer, and the IRQ6 handshake as a state machine of
driver, timer and controller steps.

**The bootloader** (`Bootloader`, `ElfLoader`, `ElfFile`, `Memory`): the sector loops,
the octal file size, the ELF segment loader, the files it reads as bytes, and the byte
copies it shares with the kernel.

## What turned out not to hold

| promise | holds exactly when | where |
|---|---|---|
| a run of calls keeps the heap well formed | no `malloc` cuts a block that another block follows, and no `free` finds the index full without joining a neighbour | `RunWellFormedIff` |
| a block the client holds stays out of free memory when another is freed | the freed block's `prev` link is right or names no index entry | `FreeOverlaysIff` |
| and over whole runs | the `malloc`s before did not cut a block that another block follows; after such a cut three further ordinary calls break it, from every well-formed heap | `OverlayPossibleIff`, `UncutRunOverlaysNothing`; `SevenCallsOverlay` is a concrete run, after which the held memory is granted again |
| freeing everything goes well: each `free` succeeds and makes its block, and no held one, available, and the initial heap is left | no `free` on the way overflows the index, or has a wrong `prev` link while the block before it or what the link names is not in use | `FreeAllIff`; `TwoNeverJoin` is a run with three live blocks |
| the same from at most 2048 live blocks | the second half of that condition, which holds without stale links | `FreeAllFewIff` |
| freeing everything leaves the initial heap, when no link is stale | no `free` on the way overflows the index | `FreeAllRestoresIff`; `EvensFirstDoesNotRestore` is a run |
| freed memory can be handed out again | the `free` succeeds and the index has a slot for the block; in a valid heap with a right link that is room in the index | `HandedOutAgainIff`, `RoomIsSlot` |
| the index has room | at most 2048 blocks are live and no free was misled; after 4097 allocations of 4 bytes and 2047 frees the next free finds no slot | `FewLiveNeverOverflow`, `OverflowIsReachable` |
| `malloc` and then `free` restore blocks and index | the `prev` link of the block taken is right or names a block in use | `MallocFreeRestoresIff` |
| a granted block holds the request | the request is at most 2^32 - 4, so that padding does not wrap | `GrantedSize` |
| every block has a positive size | no request above 2^32 - 4, whose padding wraps to 0, cuts a block | `RunPositiveIff` |
| `initialize` leaves a heap | the region has room for one header | `InitializeIsWellFormedIff` |
| `Queue::size()` is the length | the contents do not wrap; otherwise it is one too small | `Queue.Size` |
| `read_data` delivers the sectors | the first sector and the one after the last share a cylinder; otherwise it succeeds with 18 sectors too few for each boundary crossed, or runs past the buffer if it starts under head 1 | `Drive.ReadData`, `ShortReadLength` |
| `wait_for_irq` gives up in time | the driver is never held up for more than 2^32 - 3000 ticks between two looks at the clock | `GivesUpInTimeIff` |
| the bootloader walks the disk in order | the walk stays in cylinders 0 and 1 | `WalkIsRightIff`, `KernelLoadedIff` |
| `lba_to_chs` names the sector | the disk address is within 256 cylinders | `LbaRoundTripIff` |
| the ustar size is read back | the size is below 2^32 | `FileSizeRoundTripIff` |

The ELF loader checks neither the addresses nor the sizes of the segments
(src/bootloader/bootloader.asm:682-735). `LoadKernelElf` says what it does to any
image whose accesses stay in memory; `FileIsLoaded` says, from the bytes of the file,
what that amounts to when the segments lie outside the file image and apart from each
other.

## Model

| member | source | states |
|---|---|---|
| `FcVector.FCVector.Insert` | src/kernel/data/fc_vector.hpp:16-32 | inserts exactly one element at the index, or reports which bound was violated and changes nothing |
| `FcVector.FCVector.ShiftUp` | src/kernel/data/fc_vector.hpp:20-26 | the shifting loop moves the tail up by one slot and keeps the front |
| `FcVector.FCVector.Remove` | src/kernel/data/fc_vector.hpp:34-44 | deletes exactly the element at the index, also when the vector is full and the loop reads one slot past the array |
| `FcVector.FCVector.PushBack` | src/kernel/data/fc_vector.hpp:46-48 | appends, or reports a full vector |
| `FcVector.FCVector.PopBack` | src/kernel/data/fc_vector.hpp:50-52 | drops the last element; on an empty vector the wrapped index is reported as out of range |
| `FreeIndex.FindFirstGteIsLowerBound` | src/kernel/memory-manager/manager.cpp:214-235 | on sorted sizes the bisection splits the index exactly at the key |
| `FreeIndex.FindFirstGteIsLinearScan` | src/kernel/memory-manager/manager.cpp:214-235 | the bisection finds what a linear scan finds |
| `Common.SmallestGteMultipleIsLeast` | src/kernel/common.hpp:36-44 | padding gives the least multiple of 4 that is large enough, up to 2^32 - 4 |
| `MemoryManager.ReadMemoryMap` | src/kernel/memory-manager/manager.cpp:197-212 | the loop computes the list of ranges that the next row describes |
| `MemoryManager.RangesAreKept` | src/kernel/memory-manager/manager.cpp:197-212 | the ranges are, in table order, the low words of exactly the entries of kind 1 before the zero entry, up to the 32nd |
| `MemoryManager.Manager.Initialize` | src/kernel/memory-manager/manager.cpp:55-80 | succeeds exactly when such an entry has its base at or below the heap base and the heap base below base plus length modulo 2^32; then one unused block reaches that sum for the first such entry, and otherwise only header words are written |
| `MemoryManager.Manager.FindFirstGteFreeBlock` | src/kernel/memory-manager/manager.cpp:214-235 | the loop terminates with the bisection's result over the derived sizes |
| `MemoryManager.Manager.AddFreeBlock` | src/kernel/memory-manager/manager.cpp:237-241 | inserts at the bisection's position and silently drops the block when the index is full |
| `MemoryManager.Manager.RemoveFreeBlock` | src/kernel/memory-manager/manager.cpp:244-256 | removes the first entry of equal size that is this block, or reports that there is none |
| `MemoryManager.Manager.Split` | src/kernel/memory-manager/manager.cpp:96-103 | writes the remainder's header, relinks the front and indexes the remainder |
| `MemoryManager.Manager.Malloc` | src/kernel/memory-manager/manager.cpp:82-106 | the method in place has exactly the word-level effect and result; size 0 and a heap that is not initialized are refused without a change |
| `MemoryManager.Manager.MergeNext` | src/kernel/memory-manager/manager.cpp:119-127 | joins the following block if it is unused, with the error path of a missing index entry |
| `MemoryManager.Manager.MergePrev` | src/kernel/memory-manager/manager.cpp:129-139 | joins into the block the prev link names if that is unused, with the same error path |
| `MemoryManager.Manager.Free` | src/kernel/memory-manager/manager.cpp:108-144 | the method in place has exactly the word-level effect and result; a null pointer is accepted without a change |
| `HeapInvariant.MallocKeepsValid` | src/kernel/memory-manager/manager.cpp:82-106 | malloc keeps the tiling, alignment, the separation of unused blocks and the exactness and order of the index |
| `HeapInvariant.MallocKeepsSound` | src/kernel/memory-manager/manager.cpp:82-106 | malloc keeps the tiling and the order of the index also after blocks were dropped |
| `HeapInvariant.FreeKeepsValidIff` | src/kernel/memory-manager/manager.cpp:108-144 | free keeps all of that exactly when the index has room for the merged block |
| `HeapInvariant.MergedIs` | src/kernel/memory-manager/manager.cpp:119-139 | between indexed neighbours the two merges replace one to three adjacent blocks by one that spans them, in all four cases |
| `HeapInvariant.MergedIndex` | src/kernel/memory-manager/manager.cpp:119-139 | before reinsertion the index holds every unused block but the merged one |
| `HeapInvariant.TryFreeKeepsSound` | src/kernel/memory-manager/manager.cpp:119-143 | free keeps them whatever it meets, the error paths included |
| `HeapInvariant.TryFreeKeepsValidIff` | src/kernel/memory-manager/manager.cpp:108-144 | free keeps the whole invariant exactly when the index has room and the prev link is right, or wrong with the block before and what the link names in use |
| `HeapRefinement.SizeOfBlock` | src/kernel/memory-manager/manager.cpp:258-266 | the size derived from the next link is the size of the block, for every block; nothing wraps |
| `HeapRefinement.SizesAgree` | src/kernel/memory-manager/manager.cpp:258-266 | the sizes derived from links are those of the indexed blocks, in index order |
| `HeapRefinement.RemoveFreeRefines` | src/kernel/memory-manager/manager.cpp:244-256 | an indexed block is always found and exactly it is removed, however many entries share its size |
| `HeapRefinement.MallocRefines` | src/kernel/memory-manager/manager.cpp:82-106 | from every represented sound heap malloc reaches the represented block-level result, with or without the added store |
| `HeapRefinement.FreeRefines` | src/kernel/memory-manager/manager.cpp:108-144 | freeing a live block whose prev link is right, between indexed neighbours, never fails and reaches the represented block-level result |
| `HeapRefinement.TryFreeRefines` | src/kernel/memory-manager/manager.cpp:108-144 | from every represented sound heap and whatever the prev link of the freed block names, except an index entry that is not the block before, free reaches the represented block-level result and fails exactly where that says |
| `HeapRefinement.FreeJoinsFar` | src/kernel/memory-manager/manager.cpp:129-143 | in that remaining case free succeeds and leaves as many entries as before its second merge |
| `HeapLayout.LivePayloadsDisjoint` | src/kernel/memory-manager/manager.cpp:91-105 | payloads are 4-aligned, inside the heap, pairwise disjoint and free of header words |
| `HeapLayout.LayoutIsCanonical` | src/kernel/memory-manager/manager.cpp:119-141 | the block list depends only on the live blocks, never on the history of calls |
| `HeapProperties.MallocIsBestFit` | src/kernel/memory-manager/manager.cpp:86-92 | malloc fails exactly when no unused block is large enough and otherwise takes one of least sufficient size |
| `HeapProperties.MallocAddsOneLive` | src/kernel/memory-manager/manager.cpp:91-105 | malloc makes one block live and leaves the other live blocks as they are |
| `HeapProperties.GrantedSize` | src/kernel/memory-manager/manager.cpp:86-105 | the granted block is aligned and at most 12 bytes above the padded request, and holds the request exactly when padding did not wrap |
| `HeapProperties.FreeDropsOneLive` | src/kernel/memory-manager/manager.cpp:108-144 | free makes exactly one block not live, whatever it joins and also where it fails |
| `HeapProperties.ReinsertRestores` | src/kernel/memory-manager/manager.cpp:86-92 | removal at the lower bound and reinsertion at the lower bound give the same index, also among equal sizes |
| `HeapProperties.MallocFreeRestoresIff` | src/kernel/memory-manager/manager.cpp:86-141 | malloc followed by free of its result restores the block list and the index element for element exactly when the prev link of the block taken is right or names a block in use |
| `HeapProperties.MallocFreeRestores` | src/kernel/memory-manager/manager.cpp:86-141 | without stale links it always does, with the code as written |
| `HeapFrame.MallocKeepsPayloads` | src/kernel/memory-manager/manager.cpp:91-105 | malloc writes no word of a live payload |
| `HeapFrame.FreeKeepsPayloads` | src/kernel/memory-manager/manager.cpp:117-141 | free of any live block writes no word of any payload, whether it succeeds or not and whatever its prev link names |
| `HeapHeaders.FreeWrites` | src/kernel/memory-manager/manager.cpp:108-144 | free clears one used flag and writes otherwise header words only, in every memory whose next links and index entries name headers that lie apart |
| `HeapFrame.FreeTwiceFails` | src/kernel/memory-manager/manager.cpp:113-117 | freeing the same payload again at once is refused and changes nothing, whatever the first call met |
| `HeapRuns.FewLiveLeaveRoom` | src/kernel/memory-manager/manager.cpp:237-241 | with at most 2048 live blocks a free never meets a full index |
| `HeapRuns.StepRefines` | src/kernel/memory-manager/manager.cpp:82-144 | every call of a client, except a free that joins across blocks, reaches the block-level heap and keeps it sound |
| `HeapRuns.StepKeepsValidIff` | src/kernel/memory-manager/manager.cpp:82-144 | a call keeps the whole invariant exactly when it neither overflows the index nor is misled by a prev link |
| `HeapRuns.RunRefines` | src/kernel/memory-manager/manager.cpp:82-144 | over every run of mallocs, frees and client stores that never frees across blocks the memory holds the sound block-level heap, and the whole invariant if no free overflows or is misled |
| `HeapRuns.RepairedRunsAreSafe` | src/kernel/memory-manager/manager.cpp:82-144 | with the missing store added every run a client may make keeps the heap sound, whether or not the index overflows |
| `HeapRuns.FewLiveNeverOverflow` | src/kernel/memory-manager/manager.cpp:237-241 | a run that is never misled by a prev link and frees only while at most 2048 blocks are live never overflows the index |
| `HeapLinks.SameWalk` | src/kernel/memory-manager/manager.cpp:149-161 | the walk along the next links determines the block list |
| `HeapLinks.MallocKeepsWellFormedIff` | src/kernel/memory-manager/manager.cpp:96-103 | malloc as written keeps the heap well formed exactly when it does not cut a block that another block follows |
| `HeapLinks.RepairedMallocKeepsWellFormed` | src/kernel/memory-manager/manager.cpp:96-103 | with the missing store it always does |
| `HeapLinks.FreeKeepsWellFormedIff` | src/kernel/memory-manager/manager.cpp:119-143 | free keeps the heap well formed exactly when the index has room |
| `HeapLoss.StaleFreeOverlays` | src/kernel/memory-manager/manager.cpp:129-139 | freeing a block whose stale prev link names an unused block puts the live block between them inside free memory |
| `HeapLoss.CutBeforeAnotherOverlays` | src/kernel/memory-manager/manager.cpp:96-139 | after every cut before another block, malloc of the remainder and two frees succeed and have that effect |
| `HeapOverflow.FreedIsKeptIff` | src/kernel/memory-manager/manager.cpp:108-144 | free leaves its block in the index exactly when it succeeds and there is a slot; otherwise the block is left unused and without an entry |
| `HeapOverflow.LostForever` | src/kernel/memory-manager/manager.cpp:82-144 | such a block is neither handed out nor joined again by any run of calls that never frees across blocks |
| `HeapOverflow.HandedOutAgainIff` | src/kernel/memory-manager/manager.cpp:82-144 | some further calls hand out the memory of a freed block again exactly when the free succeeded and the index had a slot for it |
| `HeapOverflow.RoomIsSlot` | src/kernel/memory-manager/manager.cpp:237-241 | in a valid heap with a right prev link that is room in the index |
| `HeapTheorems.DataSurvives` | src/kernel/memory-manager/manager.cpp:82-144 | what a client stored in a live block survives any run of other calls and stores that never frees across blocks, until that block is freed; index overflows and failing frees are included |
| `HeapTheorems.RepairedDataSurvives` | src/kernel/memory-manager/manager.cpp:82-144 | with the missing store it survives every run a client may make |
| `HeapTheorems.RunIsAnswered` | src/kernel/memory-manager/manager.cpp:82-144 | in every client run each malloc returns a new block that is large enough, or the error for size 0 or for no fitting entry, a free of null succeeds, and a free of a live block succeeds exactly where no block it takes for unused lacks an entry |
| `HeapTheorems.RunWellFormedIff` | src/kernel/memory-manager/manager.cpp:82-144 | any client run is well formed at every step exactly when no free in it overflows the index and, without the missing store, no malloc in it cuts a block that another block follows |
| `HeapTheorems.RunPositiveIff` | src/kernel/memory-manager/manager.cpp:96-103 | every block of every state of a run that never frees across blocks, split remainders included, has a positive size exactly when no request whose padding wraps cuts a block |
| `HeapTheorems.InitializeIsWellFormedIff` | src/kernel/memory-manager/manager.cpp:58-77 | initialize leaves a well-formed heap of one unused block exactly when the region holds a header |
| `HeapOverlay.NotOverlaid` | src/kernel/memory-manager/manager.cpp:119-141 | in a sound heap no live block lies inside memory the index offers |
| `HeapOverlay.FreeOverlaysIff` | src/kernel/memory-manager/manager.cpp:129-139 | from a valid heap freeing a block puts one that is still held inside free memory exactly when its prev link is wrong and names an index entry |
| `HeapOverlay.UncutRunOverlaysNothing` | src/kernel/memory-manager/manager.cpp:82-144 | a run of the code as written that never cuts a block that another block follows puts no held block inside free memory |
| `HeapOverlay.OverlayPossibleIff` | src/kernel/memory-manager/manager.cpp:96-139 | after a malloc some continuation without a further such cut puts a held block inside free memory exactly when that malloc made such a cut |
| `HeapFreeAll.FreeAllIff` | src/kernel/memory-manager/manager.cpp:119-143 | from any valid heap and in any order the frees of all live blocks succeed, make each its block and no held one available, and leave the initial heap, exactly when none overflows the index or is misled by a prev link |
| `HeapFreeAll.FreeAllFewIff` | src/kernel/memory-manager/manager.cpp:119-143 | from at most 2048 live blocks exactly when none is misled |
| `HeapFreeAll.FreeAllRestoresIff` | src/kernel/memory-manager/manager.cpp:119-143 | from a heap without stale links they leave the initial heap exactly when none overflows the index |
| `HeapFreeAll.FreedIsOfferedIff` | src/kernel/memory-manager/manager.cpp:119-143 | from every sound heap free makes its block available exactly when it succeeds and the index has a slot |
| `HeapExamples.TwoNeverJoin` | src/kernel/memory-manager/manager.cpp:96-143 | eight calls after initialize, all successful and without overflow, that free all three live blocks and leave two unused blocks side by side |
| `HeapExamples.SevenCallsOverlay` | src/kernel/memory-manager/manager.cpp:96-143 | seven calls after which a held block lies in free memory; an eighth malloc grants its memory again, or its own free fails while the heap looks initial |
| `HeapFull.OverflowIsReachable` | src/kernel/memory-manager/manager.cpp:237-241 | in every range of more than 65600 bytes 4097 mallocs and 2047 frees, with no link stale, lead to a valid heap in which one more free overflows the index |
| `HeapFull.EvensFirstDoesNotRestore` | src/kernel/memory-manager/manager.cpp:119-143 | an order in which freeing 4097 live blocks does not restore the heap |
| `UnboundedTerminal.PutStringAppends` | src/kernel/drivers/vga/vga.cpp:31-50 | text written in two pieces is text written in one |
| `UnboundedTerminal.PlainTextIsPutText` | src/kernel/drivers/vga/vga.cpp:31-50 | without control characters put_string is put_char after put_char |
| `UnboundedTerminal.LinesReadBack` | src/kernel/drivers/vga/vga.cpp:31-50 | any number of lines with line feeds between them: each lies from column 0 of the row below the end of the one before, none overwrites another or any other cell, and the cursor follows the last |
| `UnboundedTerminal.CarriageReturn` | src/kernel/drivers/vga/vga.cpp:43-45 | after a carriage return text lies from column 0 of the row in which the text before it ends, and every other cell keeps what it had |
| `UnboundedTerminal.CellHoldsByte` | src/kernel/drivers/vga/vga.cpp:24-29 | the low byte of a cell is the character, the high byte 0x07, or 0xFF from sign extension |
| `UnboundedTerminal.WindowFollows` | src/kernel/drivers/vga/vga.cpp:107-120 | the window moves down by the least that shows the cursor, and never up |
| `UnboundedTerminal.BlankIsClear` | src/kernel/drivers/vga/vga.cpp:17-22 | the cleared screen shows 0x0700 in its 25 rows, rows scrolled in show 0x0020 |
| `UnboundedTerminal.PutTextReadsBack` | src/kernel/drivers/vga/vga.cpp:24-29 | plain text of any length lands in reading order from the cursor on, the cursor follows it, and no other cell changes |
| `UnboundedTerminal.EraseSequence` | src/kernel/kernel.cpp:135-137 | backspace, space, backspace blanks the character before the cursor and steps onto it |
| `UnboundedTerminal.BackspaceAtStart` | src/kernel/drivers/vga/vga.cpp:38-42 | a backspace in column 0 does nothing |
| `Vga.Terminal.ClearScreen` | src/kernel/drivers/vga/vga.cpp:17-22 | gives the blank terminal |
| `Vga.Terminal.ScrollRow` | src/kernel/drivers/vga/vga.cpp:111-120 | moves every row up and fills the last with 0x0020 |
| `Vga.Terminal.ShowNextRow` | src/kernel/drivers/vga/vga.cpp:111-120 | scrolling once shows the unbounded document one row further down |
| `Vga.Terminal.SetCursorPos` | src/kernel/drivers/vga/vga.cpp:107-120 | for any target row the buffer stays the window of the unbounded terminal |
| `Vga.Terminal.NewLine` | src/kernel/drivers/vga/vga.cpp:99-101 | refines the unbounded terminal's line feed |
| `Vga.Terminal.PutChar` | src/kernel/drivers/vga/vga.cpp:24-29 | refines the unbounded terminal's character write, wrapping and scrolling included, for every byte |
| `Vga.Terminal.PutString` | src/kernel/drivers/vga/vga.cpp:31-50 | refines the unbounded terminal on the characters before the terminating zero, control characters included |
| `Vga.Terminal.PutHex` | src/kernel/drivers/vga/vga.cpp:52-64 | prints 0x and the eight digits of the word's positional text, taken from the top by shifting |
| `Vga.Terminal.ExtractDigits` | src/kernel/drivers/vga/vga.cpp:80-89 | the ten-slot buffer always suffices and holds the decimal text reversed |
| `Vga.Terminal.PutUnsignedDecimal` | src/kernel/drivers/vga/vga.cpp:74-97 | prints the shortest decimal text |
| `Vga.Terminal.PutSignedDecimal` | src/kernel/drivers/vga/vga.cpp:66-72 | prints a minus sign and the magnitude |
| `NumberText.ShiftStep` | src/kernel/drivers/vga/vga.cpp:54-63 | the top digit after i shifts is the i-th digit of the positional text |
| `NumberText.DigitsReadBack` | src/kernel/drivers/vga/vga.cpp:52-64 | n digits of a number below base^n are digits and read back as that number |
| `NumberText.DecimalReadsBack` | src/kernel/drivers/vga/vga.cpp:74-97 | decimal text has only digits, no leading zero, and reads back |
| `NumberText.WordHasTenDigits` | src/kernel/drivers/vga/vga.cpp:80-81 | a 32-bit number has at most ten decimal digits |
| `RingBuffer.Queue.PushBack` | src/kernel/data/queue.hpp:24-31 | appends, or refuses exactly when SIZE elements are held |
| `RingBuffer.Queue.PopFront` | src/kernel/data/queue.hpp:33-41 | takes the oldest element, or reports an empty queue |
| `RingBuffer.Queue.Size` | src/kernel/data/queue.hpp:51-58 | is the length exactly when the contents do not wrap, else one too small |
| `QueueInterrupts.RunKeepsInv` | src/kernel/data/queue.hpp:24-41 | over every interleaving the ring holds what was accepted and not yet popped, in order |
| `QueueInterrupts.FifoUnderInterrupts` | src/kernel/drivers/ps2/keyboard/keyboard.cpp:658-667 | with interrupts between any two accesses of pop_front nothing is lost, duplicated or reordered |
| `QueueInterrupts.PushRefusedIff` | src/kernel/data/queue.hpp:24-31 | a push is refused exactly when SIZE elements wait, and never touches the slot being read |
| `QueueInterrupts.PopIsNextOrEmpty` | src/kernel/data/queue.hpp:33-41 | pop answers empty exactly when everything accepted before it looked was popped, else delivers the next element |
| `QueueInterrupts.UninterruptedPop` | src/kernel/data/queue.hpp:33-41 | left alone, its accesses are one pop |
| `ScancodeTables.TablesInvert` | src/kernel/drivers/ps2/keyboard/keyboard.cpp:79-595 | the decoding tables invert the encoding on every known key, and no make code is a prefix byte |
| `ScancodeTables.MappedIsKnown` | src/kernel/drivers/ps2/keyboard/keyboard.cpp:79-595 | every mapped code is the code of the key it maps to, so no two codes share a key |
| `Keyboard.MappedIffKnown` | src/kernel/drivers/ps2/keyboard/keyboard.cpp:79-595 | a table maps a code exactly when some key has it |
| `Keyboard.Driver.Parse` | src/kernel/drivers/ps2/keyboard/keyboard.cpp:613-652 | consumes the bytes of one scancode and decodes it, with the branch that can never be taken |
| `Keyboard.Driver.KeyboardHandler` | src/kernel/drivers/ps2/keyboard/keyboard.cpp:658-672 | queues the event if there is room and updates the key table in any case |
| `Keyboard.Driver.PollEvent` | src/kernel/drivers/ps2/keyboard/keyboard.cpp:61-63 | takes the oldest queued event |
| `Keyboard.Driver.IsKeyPressed` | src/kernel/drivers/ps2/keyboard/keyboard.cpp:654-656 | reads the key table |
| `Keyboard.ParseEncoded` | src/kernel/drivers/ps2/keyboard/keyboard.cpp:613-650 | decoding the encoding of an event gives the event and leaves the following bytes |
| `Keyboard.ParseMessage` | src/kernel/drivers/ps2/keyboard/keyboard.cpp:613-652 | of any such scancode exactly its bytes are consumed, and the result is its key or the unknown key |
| `Keyboard.HandlerDecodesAll` | src/kernel/drivers/ps2/keyboard/keyboard.cpp:613-667 | one handler call per event decodes any list of events; the queue holds the first that fit and the key table shows the last event on each key even where it was dropped |
| `Keyboard.HandlerSkipsUnknown` | src/kernel/drivers/ps2/keyboard/keyboard.cpp:613-672 | one handler call per scancode, mapped and unmapped ones and skipped sequences mixed: the queue gets the events of the mapped ones only, the key table changes for these only, and exactly the bytes of each are consumed |
| `FloppyGeometry.LbaRoundTripIff` | src/kernel/drivers/disk/floppy/floppy.cpp:82-88 | the address is always valid, and right exactly within 256 cylinders |
| `FloppyGeometry.ChsRoundTrip` | src/kernel/drivers/disk/floppy/floppy.cpp:82-88 | every valid address is reached |
| `FloppyGeometry.StepIsSuccessorIff` | src/bootloader/bootloader.asm:199-232 | the position step is the successor exactly when it need not advance the cylinder, or advances it from 0 to 1 |
| `FloppyGeometry.WalkReaches` | src/bootloader/bootloader.asm:199-232 | where the walk is after any number of steps: from cylinder 1 on it stays there |
| `FloppyGeometry.WalkIsRightIff` | src/bootloader/bootloader.asm:199-232 | the walk is in disk order exactly while it is in cylinders 0 and 1 |
| `FloppyRead.Drive.CopyPart` | src/kernel/drivers/disk/floppy/floppy.cpp:278-283 | one cylinder read and copy delivers the disk sectors; with the index wrapped to -1 it delivers an arbitrary sector and the first ones of the cylinder; with a wrapped count it runs past the buffer |
| `FloppyRead.Drive.ReadData` | src/kernel/drivers/disk/floppy/floppy.cpp:261-300 | delivers exactly the disk slice when both ends share a cylinder; otherwise, unless a cylinder cannot be read, it succeeds with the short data below when it starts under head 0, and runs past the buffer when it starts under head 1 |
| `FloppyRead.ShortReadLength` | src/kernel/drivers/disk/floppy/floppy.cpp:266-297 | the short data lacks 18 sectors for each cylinder boundary crossed, so it is never what was asked for |
| `FloppyRead.Drive.ReadDataRepaired` | src/kernel/drivers/disk/floppy/floppy.cpp:261-300 | with lines 270, 281 and 287 repaired every request is delivered unless one of its cylinders cannot be read |
| `FloppyIrq.WaitingCommandsHaveParameters` | src/kernel/drivers/disk/floppy/floppy.cpp:119-224 | every command the driver waits for has a parameter |
| `FloppyIrq.CallsAgreeWithTables` | src/kernel/drivers/disk/floppy/floppy.cpp:106-224 | every command the driver executes passes as many parameters as send_command writes, and it waits for the interrupt of READ DATA and RECALIBRATE only |
| `FloppyIrq.RunKeepsInv` | src/kernel/drivers/disk/floppy/floppy.cpp:323-361 | in every interleaving the flag is down exactly once the interrupt was handled, and the clock difference is the true one |
| `FloppyIrq.HandshakeIsSafe` | src/kernel/drivers/disk/floppy/floppy.cpp:323-410 | in every interleaving the driver waits only once all parameters are written, success means the command was answered, a timeout means at least 3000 ticks passed despite wrap-around, and no answer is lost |
| `FloppyIrq.AnswerIsSeen` | src/kernel/drivers/disk/floppy/floppy.cpp:393-404 | once answered, the wait ends with success at the next look exactly when the clock has not reached the timeout |
| `FloppyIrq.GivesUpInTimeIff` | src/kernel/drivers/disk/floppy/floppy.cpp:393-404 | the wait always ends within its hold-up after the timeout exactly when no hold-up exceeds 2^32 - 3000 ticks |
| `FloppyIrq.AnswerLostIff` | src/kernel/drivers/disk/floppy/floppy.cpp:330-344 | an answer could be lost exactly for a command without parameters |
| `Bootloader.BootDisk.ReadSectors` | src/bootloader/bootloader.asm:237-257 | reads consecutive sectors of the walk to consecutive addresses of one segment |
| `Bootloader.BootDisk.ReadSectorsMultiSegment` | src/bootloader/bootloader.asm:469-505 | does so over whole segments and the rest, for every 16-bit count |
| `Bootloader.AddressIsLinearIff` | src/bootloader/bootloader.asm:486-490 | sector k lands at 0x10000 + 512 k exactly while the segment register does not wrap |
| `Bootloader.KernelLoadedIff` | src/bootloader/bootloader.asm:469-505 | the kernel is loaded in place and in order exactly when it ends within the first two cylinders |
| `Bootloader.UstarReadFileSize` | src/bootloader/bootloader.asm:263-282 | the loop folds the eleven characters of the size field |
| `Bootloader.ReadsModulo` | src/bootloader/bootloader.asm:274-276 | shift and or compute the octal value modulo 2^32 |
| `Bootloader.FileSizeRoundTripIff` | src/bootloader/bootloader.asm:263-282 | the eleven-digit octal text of a size is read back exactly below 2^32 |
| `Bootloader.HeaderSizeIff` | src/bootloader/bootloader.asm:263-282 | in a header with 124 bytes before the field the size is read back exactly below 2^32 |
| `Memory.MemCpy` | src/kernel/common.cpp:64-70 | copies byte by byte from the lowest address |
| `Memory.MovedAt` | src/kernel/common.cpp:64-84 | what a move means byte by byte: the destination holds the old source range, every other byte is the old one |
| `Memory.ForwardCopyMoves` | src/kernel/common.cpp:64-70 | which moves the range whenever the destination is not ahead of the source inside it |
| `Memory.CopyBackward` | src/kernel/common.cpp:76-82 | the backward loop moves the range when the destination is ahead |
| `Memory.MemMove` | src/kernel/common.cpp:72-84 | moves any two possibly overlapping ranges and changes nothing else |
| `ElfLoader.LoadEntry` | src/bootloader/bootloader.asm:685-735 | zeroes the segment and copies its file bytes; other entry types change nothing |
| `ElfLoader.SegmentEffect` | src/bootloader/bootloader.asm:713-730 | byte for byte: file bytes, then zeros, and everything else unchanged |
| `ElfLoader.LoadKernelElf` | src/bootloader/bootloader.asm:740-821 | rejects a wrong header without a change; else loads every entry in order, each header read when its turn comes, and returns the entry point |
| `ElfLoader.LoadedAsAsked` | src/bootloader/bootloader.asm:796-812 | when segments lie outside the file, every byte of memory is what the table in the file asks for |
| `ElfLoader.KernelInPlace` | src/bootloader/bootloader.asm:740-821 | when segments lie outside the file and apart, the loader leaves each as its file bytes followed by zeros and the rest of memory as it was |
| `ElfFile.ProgramHeaderReads` | src/bootloader/bootloader.asm:685-711 | the loader reads each field of an encoded 32-byte program header where the format puts it |
| `ElfFile.HeaderOkIff` | src/bootloader/bootloader.asm:752-777 | the loader accepts exactly the identification, type, machine and version of a 32-bit little-endian 80386 executable |
| `ElfFile.FileHeaderReads` | src/bootloader/bootloader.asm:778-797 | it reads entry point, table position, entry size and count of an encoded 52-byte file header |
| `ElfFile.FileIsLoaded` | src/bootloader/bootloader.asm:740-821 | from a file with such headers, whose segments lie apart and outside it, every loadable segment is left as its file bytes followed by zeros, the rest of memory as it was, and the entry point is returned |
| `ElfLoader.SegmentInPlace` | src/bootloader/bootloader.asm:796-812 | with segments apart, each lies in memory as its file bytes followed by zeros, for any number of entries |
| `ElfLoader.RestUnchanged` | src/bootloader/bootloader.asm:796-812 | memory that no loadable segment covers keeps its contents |

## Left out

- Header padding: a header is three words here; the three bytes beside the `used` flag are not modelled.
- LoadKernelElf: images that make the loader touch addresses beyond the modelled memory, where 32-bit addresses would wrap, are not modelled.
- After a free that joins across blocks the block-level run describes nothing further; `FreeOverlaysIff` and `HeapHeaders` say what such a free does.
- Pointer arithmetic of the heap is unbounded; only sizes and padding wrap at 2^32, and in well-formed heaps nothing else could.
- `tailNode` is set by initialize and never read, so nothing is stated about it; stale entries of the memory range table after a second initialize are not modelled.
- The outcome of a heap call on a pointer that is not a live payload, beyond the refusal of an immediate second free.
- Port I/O, the hardware cursor, end-of-interrupt commands, DMA and PIC programming, `hlt`, `cli` and `sti`.
- Floppy command retries, the status register protocol and drive selection: a cylinder read either fills the buffer or fails.
- ReadData: the bytes already written to the caller's buffer when the read fails are not described, and neither is what a copy with a wrapped byte count does to the rest of memory; requests beyond 256 cylinders are left out.
- BIOS calls, disk errors in the bootloader, the A20 line, segment switching and the stack: the loops run on successful reads and the stack is outside the modelled memory.
- PS/2 initialisation, device identification, and the character maps of keys.
- `sleep`, `memset`, `memcmp`, `offset_cursor`, `print_*`, `kmalloc`/`kfree` and the operator wrappers, GDT and IDT filling: they would only add easy members.
- PutSignedDecimal: excludes the smallest 32-bit integer, whose negation is undefined in the source.
