# A verified model of the kernel's memory, executor, terminal and drivers

This project models the parts of the kernel where state, aliasing and arithmetic meet, and proves
what those parts are for: that allocators never hand out the same byte twice, that no key press and
no wakeup is lost under interrupts, that the terminal shows the tail of the text written to it, that
frames are not shared between pages, that a loaded program is the image its headers describe, and
that what the drivers read is what is there.

`dafny verify dfyconfig.toml` checks everything.

## How it is organised

Each subject has its meaning on values (functions and lemmas) and, where the source updates state
step by step, the same code as classes and methods with loops, proved against that meaning.

| file | what it holds |
|---|---|
| `wrappers.dfy`, `bits.dfy`, `regions.dfy` | failure types; `&`, `\|`, `!`, shifts and bit fields on natural numbers; counting the owners of a byte |
| `alignment.dfy` | `align_up` and layouts |
| `linked_list.dfy`, `linked_list_memory.dfy` | the first-fit allocator on values; the intrusive list in word-addressed memory |
| `bump.dfy` | the bump allocator |
| `fixed_size_block.dfy`, `fixed_size_block_memory.dfy` | the size-class allocator on values; its lists in memory |
| `executor.dfy`, `executor_kernel.dfy` | executor, wakers and scancode stream as a transition system; the methods of the source, each shown to perform a run of it |
| `display.dfy`, `display_laws.dfy`, `tty.dfy` | the scrollback document; what each character and sequence does to it, and lines of text; the flat cell buffer with its loops |
| `ustar.dfy`, `ustar_reader.dfy` | the archive format and a writer; the iterator and `read_file` |
| `memory.dfy`, `pages.dfy`, `elf.dfy` | frames, page mapping and page allocators, program loading |
| `pci.dfy`, `acpi.dfy` | configuration addresses, BAR probing against a register model; the ECAM window |

## Conventions

* Plain `+`, `-`, `*` on machine integers are checked, as in the default build of the kernel: an
  overflow is a panic. `Panicked` also stands for a failing `assert!`, `expect` or `unwrap`.
  `checked_add`, `saturating_add` and `fetch_add` are modelled as what they are.
* A client of an allocator is arbitrary, but frees only what it holds, with the layout it asked for,
  as `GlobalAlloc` demands.
* Code that is not in the repository is a parameter or a free choice: the fallback heap of the
  size-class allocator answers in any way that hands out spare bytes at an aligned address, and
  writes to its own memory as it likes; a mapping takes any number of page-table frames; interrupts
  come at every step at which they are enabled.

## What the code does differently from what one may expect

These are proved as stated, for all inputs. Each has an input that shows it, too.

* The size class 4098 is not a power of two, so exactly the requests with
  2048 < max(size, align) <= 4098 panic (`FixedSizeBlockModel.AllocPanicsIff`, `FixedSizeBlockModel.LargeRequestPanics`).
* `free` after `alloc` restores the page table exactly if more than 4096 bytes were asked for
  (`Pages.AllocThenFree`, `Pages.OneByteLeavesAPage`).
* `write_str(a + b)` is `write_str(a)` then `write_str(b)` for every `b` exactly if no escape
  sequence is open at the end of `a` (`DisplayModel.SplitLaw`, `DisplayModel.EscapeInTwoPieces`).
* `read_file` agrees with `files()` for every name exactly if all names are UTF-8
  (`UstarModel.ReadFileAgreesWithFilesIff`, `UstarModel.BadNameImage`).
* A 16-bit configuration write at the last byte of a dword loses its upper byte
  (`Pci.PCIDevice.WriteAndReadU16`, `Pci.StraddlingWriteIsCut`), and through port CF8 offsets from 256 on wrap around
  (`Pci.Cf8AddressesDiffer`, `Pci.ExtendedOffsetsAlias`).
* The ECAM window holds all accesses to an entry's buses exactly if the entry starts at bus 0
  (`Acpi.AccessesStayInWindowIff`, `Acpi.BusOneIsOutside`).
* A keyboard interrupt before the scancode queue exists panics (`ExecutorModel.PanicsIff`, `ExecutorModel.EarlyKeyPanics`);
  interrupts are enabled before it does.

## Model

| member | source | states |
|---|---|---|
| `Alignment.AlignUpIsLeastMultiple` | kernel/src/allocator/mod.rs:82-84 | for a power of two, masking returns exactly when addr + align is representable, and then the least multiple not below addr |
| `Alignment.AlignUpOfAligned` | kernel/src/allocator/mod.rs:82-84 | an aligned address is left alone |
| `LinkedListModel.SizeAlignMeaning` | kernel/src/allocator/linked_list.rs:117-124 | exactly when adjusting panics; otherwise size and alignment suffice for the layout and for a node, and the size is a multiple of 8 |
| `LinkedListModel.SizeAlignIsLeast` | kernel/src/allocator/linked_list.rs:117-124 | the adjusted size is a node, or the least multiple of the alignment not below the requested size |
| `LinkedListModel.AllocFromRegionMeaning` | kernel/src/allocator/linked_list.rs:93-111 | a region hosts a block at its least aligned address exactly if the block fills it or leaves room for a node |
| `LinkedListModel.SearchIsFirstFit` | kernel/src/allocator/linked_list.rs:69-88 | the first acceptable region in list order; nothing is found iff no region is acceptable; panics only at a region all predecessors of which were refused |
| `LinkedListModel.AllocAnswer` | kernel/src/allocator/linked_list.rs:128-143 | the returned pointer is the start of the new live block, which has the layout asked for, at the place of the first fit; without a pointer nothing has changed |
| `LinkedListModel.InitialInv` | kernel/src/allocator/linked_list.rs:47-49 | the fresh heap satisfies the invariant |
| `LinkedListModel.AllocKeepsInv` | kernel/src/allocator/linked_list.rs:128-143 | allocation keeps the exact partition of the heap into free regions, live blocks and pads |
| `LinkedListModel.FreeKeepsInv` | kernel/src/allocator/linked_list.rs:145-150 | so does deallocation |
| `LinkedListModel.RunKeepsInv` | kernel/src/allocator/linked_list.rs:47-150 | over every run: every byte of the heap has exactly one owner, nodes are 8-aligned and at least 16 bytes, blocks are aligned and large enough, and the sizes of free regions, live blocks and pads add up to the heap |
| `LinkedListModel.InvMeansSafe` | kernel/src/allocator/linked_list.rs:47-150 | hence free regions, live blocks and pads are pairwise disjoint, inside the heap, and add up to it; every block is aligned and large enough for its layout |
| `LinkedListModel.RunIsSafe` | kernel/src/allocator/linked_list.rs:47-150 | over every run on a heap of given bounds: live blocks pairwise disjoint, inside those bounds, aligned and large enough; free, live and padding bytes add up to the size |
| `LinkedListModel.AllocPanicsIff` | kernel/src/allocator/linked_list.rs:93-143 | the exact condition for a panic: a layout that cannot be raised to node alignment, or a search that reaches a region whose start cannot be rounded up |
| `LinkedListModel.NoPanicBelowTheTop` | kernel/src/allocator/linked_list.rs:93-143 | with room for the alignment above the heap, only the former is left: the "overflow" expect never fires |
| `LinkedListModel.AllocFailsIffNothingFits` | kernel/src/allocator/linked_list.rs:69-143 | null exactly if no free region can host the adjusted block |
| `LinkedListModel.NoPaddingForSmallAlignments` | kernel/src/allocator/linked_list.rs:93-143 | over every run with alignments up to 8, nothing is lost to padding: free and live bytes make up the heap |
| `LinkedListMemory.ChainIsAcyclic` | kernel/src/allocator/linked_list.rs:5-22 | following next pointers visits the regions of the list in order, never comes to an address twice, and ends |
| `LinkedListMemory.LinkedListAllocator.constructor` | kernel/src/allocator/linked_list.rs:30-49 | on memory with any contents, the initial node is written into the heap and nowhere else |
| `LinkedListMemory.LinkedListAllocator.AddFreeRegion` | kernel/src/allocator/linked_list.rs:52-63 | panics exactly if one of its asserts fails; otherwise the region is the new head and its two words are the only ones written |
| `LinkedListMemory.LinkedListAllocator.FindRegion` | kernel/src/allocator/linked_list.rs:69-88 | finds what the search finds, unlinks exactly that node, keeps the order of the others, and writes to free memory only |
| `LinkedListMemory.LinkedListAllocator.Alloc` | kernel/src/allocator/linked_list.rs:128-143 | refines the allocation step on values; a returned pointer is the start of the one new live block, which has the layout asked for; asserts never fire, and only words of free regions change |
| `LinkedListMemory.LinkedListAllocator.Dealloc` | kernel/src/allocator/linked_list.rs:145-150 | refines the free step, never panics, and only words of the freed block change |
| `LinkedListMemory.Perform` | kernel/src/allocator/linked_list.rs:128-150 | one client operation on a sound heap: it stays sound, a returned pointer is the aligned start of a new live block that is large enough, and no word of any other live block changes |
| `LinkedListMemory.Serve` | kernel/src/allocator/linked_list.rs:47-150 | over every run of client operations, memory holds the list of the model, and a block that is left alone keeps every word |
| `BumpModel.AllocOutcome` | kernel/src/allocator/bump.rs:41-57 | exactly when allocation panics, fails, or succeeds, and at which address |
| `BumpModel.FreshOutcome` | kernel/src/allocator/bump.rs:33-57 | on a fresh heap a block is placed at its least aligned address exactly if it ends within the heap and below the top of the address space |
| `BumpModel.AllocAnswer` | kernel/src/allocator/bump.rs:41-57 | the returned pointer is the start of the new live block, with which the used part now ends; without a pointer nothing has changed |
| `BumpModel.FreeOutcome` | kernel/src/allocator/bump.rs:59-66 | one block goes, and memory is given back only with the last one |
| `BumpModel.RunKeepsInv` | kernel/src/allocator/bump.rs:33-66 | over every run: live blocks in order without overlap, aligned, below next; the counter counts them; none left means next is the start |
| `BumpModel.RunIsSafe` | kernel/src/allocator/bump.rs:33-66 | from a fresh heap of given bounds: live blocks disjoint, aligned, inside those bounds; once everything is freed the allocator is as good as new |
| `BumpModel.BumpAllocator.Initialize` | kernel/src/allocator/bump.rs:33-37 | the heap goes from start to start + size, at most to the top of the address space; nothing is used |
| `BumpModel.BumpAllocator.Alloc` | kernel/src/allocator/bump.rs:41-57 | refines the allocation step, keeps the invariant, and a returned pointer is the start of the one new live block |
| `BumpModel.BumpAllocator.Dealloc` | kernel/src/allocator/bump.rs:59-66 | refines the free step; the counter never underflows, and the reset exposes no live block |
| `FixedSizeBlockModel.PositionIsSmallest` | kernel/src/allocator/fixed_size_block.rs:28-31 | the class is the smallest one large enough, none iff more than 4098 is required |
| `FixedSizeBlockModel.ClassSizesArePow2` | kernel/src/allocator/fixed_size_block.rs:23 | every class but the last is a power of two |
| `FixedSizeBlockModel.BlockLayoutMeaning` | kernel/src/allocator/fixed_size_block.rs:89-92 | the layout of a class is valid for every class but the last, where unwrapping it panics |
| `FixedSizeBlockModel.RequestMeaning` | kernel/src/allocator/fixed_size_block.rs:86-97 | what the fallback is asked for: the block of the class, or the layout itself if it has no class; a panic exactly for the last class |
| `FixedSizeBlockModel.AllocAnswer` | kernel/src/allocator/fixed_size_block.rs:78-99 | the answer is the head of the class list, or what the fallback answers, or a panic for the last class; a pointer is to a chunk that is now live with the layout asked for, and all other chunks are as they were |
| `FixedSizeBlockModel.FreeOutcome` | kernel/src/allocator/fixed_size_block.rs:101-120 | the freed block is the head of its class list, or gone to the fallback; all other chunks are as they were |
| `FixedSizeBlockModel.StepKeepsInv` | kernel/src/allocator/fixed_size_block.rs:78-120 | allocation and deallocation, in every branch, keep the invariant |
| `FixedSizeBlockModel.RunKeepsInv` | kernel/src/allocator/fixed_size_block.rs:78-120 | over every run, with every behaviour of the fallback: chunks disjoint from each other and from the fallback's bytes, each list exactly the free blocks of its class |
| `FixedSizeBlockModel.InvMeansSafe` | kernel/src/allocator/fixed_size_block.rs:78-120 | a client's block is aligned as requested, large enough, inside the heap, and overlaps no other block, no free block and no byte of the fallback |
| `FixedSizeBlockModel.RunIsSafe` | kernel/src/allocator/fixed_size_block.rs:78-120 | over every run from a fresh allocator on given bounds, every block that a client holds is aligned, large enough, inside them, and apart from all others and from the fallback |
| `FixedSizeBlockModel.ClassBalance` | kernel/src/allocator/fixed_size_block.rs:78-120 | blocks obtained from the fallback for a class = live blocks + free blocks of the class |
| `FixedSizeBlockModel.AllocPanicsIff` | kernel/src/allocator/fixed_size_block.rs:88-93 | in a sound pool, panics exactly for 2048 < max(size, align) <= 4098 |
| `FixedSizeBlockModel.LargeRequestPanics` | kernel/src/allocator/fixed_size_block.rs:88-93 | 3000 bytes from a fresh allocator panic |
| `FixedSizeBlockModel.LastFreedIsFirstReused` | kernel/src/allocator/fixed_size_block.rs:78-120 | a freed block is the next one handed out for its class, and taking it back with the same layout restores the pool |
| `FixedSizeBlockMemory.FixedSizeBlockAllocator.Alloc` | kernel/src/allocator/fixed_size_block.rs:78-99 | the linked lists in memory refine the lists of the model, whatever the fallback does to its own memory; at most the link word of the returned block is written by this code |
| `FixedSizeBlockMemory.FixedSizeBlockAllocator.Dealloc` | kernel/src/allocator/fixed_size_block.rs:101-120 | the same; asserts never fire, at most the link word of the freed block is written, and a block without a class is left to the fallback |
| `FixedSizeBlockMemory.Perform` | kernel/src/allocator/fixed_size_block.rs:78-120 | one client operation on a sound pool, with whatever the fallback leaves in its memory: the pool stays sound, a returned pointer is to an aligned block that is large enough and now live, and no word of a block that the client held and still holds changes |
| `ExecutorModel.StepKeepsInv` | kernel/src/executor.rs:76-113 | every step of the main thread and every interrupt keeps the protocol invariant |
| `ExecutorModel.RunKeepsInv` | kernel/src/executor.rs:76-113 | so does every interleaving |
| `ExecutorModel.NoWakeupIsLost` | kernel/src/keyboard.rs:52-70 | in every reachable state: a halted processor means empty queues and a registered waker; a parked stream with a waiting scancode is queued |
| `ExecutorModel.ScancodesAreConserved` | kernel/src/keyboard.rs:20-28 | accepted bytes are the delivered ones followed by the waiting ones, in order; the queue holds at most 100 |
| `ExecutorModel.KeyIsAcceptedIfThereIsRoom` | kernel/src/keyboard.rs:20-28 | a key is accepted exactly if fewer than 100 bytes wait, whether a waker is registered or not; nothing else is accepted |
| `ExecutorModel.AcceptedAreKeysWithRoom` | kernel/src/keyboard.rs:20-28 | over every run, the accepted bytes are the keys that came while there was room, in order |
| `ExecutorModel.WakeupsAreQueued` | kernel/src/executor.rs:130-134 | every wakeup, by spawn, waker or key, is queued behind all earlier ones; nothing else is |
| `ExecutorModel.WakerChanges` | kernel/src/keyboard.rs:52-70 | a waker is registered by poll_next, and used up by an accepted key or by take; by nothing else |
| `ExecutorModel.PoppedTaskIsPolled` | kernel/src/executor.rs:84-93 | a popped task that has not finished is polled at once, with a cached waker, the owner of the stream by poll_next; a finished one is skipped |
| `ExecutorModel.TaskSetChanges` | kernel/src/executor.rs:59-101 | a polled task is removed, with its waker, exactly if it returns Ready; only spawn adds a task, with a fresh id |
| `ExecutorModel.TasksAreSpawnedAndUnfinished` | kernel/src/executor.rs:31-101 | in every reachable state the tasks are exactly those spawned that have not returned Ready |
| `ExecutorModel.FinishedTasksStayFinished` | kernel/src/executor.rs:82-101 | a task that returned Ready is never polled again; ids are never reused; cached wakers belong to tasks |
| `ExecutorModel.PanicsIff` | kernel/src/executor.rs:59-67 | for each step, exactly when it panics; the duplicate-id panic is not among the ways |
| `ExecutorModel.EarlyKeyPanics` | kernel/src/keyboard.rs:20-28 | a key pressed right after boot panics |
| `ExecutorModel.QueueIsFifo` | kernel/src/executor.rs:84-84 | the id at position k is at the head after k more pops, and is the next to be popped then |
| `ExecutorModel.WaitingScancodeIsDelivered` | kernel/src/keyboard.rs:52-70 | if the tasks in front return, a scancode waiting for a parked stream is delivered within two steps for each of them, without another interrupt |
| `ExecutorKernel.Kernel.AddScancode` | kernel/src/keyboard.rs:20-28 | the byte is appended and the waker used up if fewer than 100 wait, otherwise dropped; a panic before the queue exists; this is the key step of the transition system |
| `ExecutorKernel.Kernel.WakeTask` | kernel/src/executor.rs:130-134 | appends the id to the task queue, or panics on a full one |
| `ExecutorKernel.Kernel.SpawnTask` | kernel/src/executor.rs:59-67 | performs the spawn step, with an id from the wrapping counter |
| `ExecutorKernel.Kernel.Interrupts` | kernel/src/keyboard.rs:20-28 | any number of interrupts is a run of interrupt steps, and ends a halt |
| `ExecutorKernel.Kernel.PollNext` | kernel/src/keyboard.rs:52-70 | with interrupts at every step: Ready delivers exactly the next byte; Pending leaves an empty scancode queue and a waker that is registered or has queued the task |
| `ExecutorKernel.Kernel.PollTask` | kernel/src/executor.rs:93-100 | the poll of any other task is a run: it may wake tasks and be interrupted, and is removed iff it is Ready |
| `ExecutorKernel.Kernel.RunReadyTasks` | kernel/src/executor.rs:76-102 | is a run that keeps the invariant, and goes on to sleep only with an empty task queue |
| `ExecutorKernel.Kernel.SleepIfIdle` | kernel/src/executor.rs:104-113 | halts iff the task queue is empty, and then nothing waits to be read |
| `DisplayModel.RowsAboveCursorAreFinal` | kernel/src/display.rs:349-363 | whatever is written, rows above the cursor never change: scrolling only moves the window over the document |
| `DisplayModel.WriteInPieces` | kernel/src/display.rs:445-520 | writing a + b is writing a and then b, unless an escape sequence is open |
| `DisplayModel.SplitLaw` | kernel/src/display.rs:445-520 | for every b, exactly if none is open at the end of a |
| `DisplayModel.EscapeInTwoPieces` | kernel/src/display.rs:445-520 | ESC and [m written separately are not the sequence |
| `DisplayModel.CompleteEscape` | kernel/src/display.rs:448-481 | a complete ESC [ digits m changes the colour for what follows and nothing else |
| `DisplayModel.BackspaceUndoesTypingIff` | kernel/src/display.rs:388-423 | typing and backspace restore text and cursor exactly if the row is blank from the cursor on and the cursor is not in the last column |
| `DisplayModel.PlainTextFillsTheDocument` | kernel/src/display.rs:445-520 | n plain characters on a cleared screen fill the document from its first cell on, with wrapping, and the cursor follows |
| `DisplayModel.PlainTextOnScreen` | kernel/src/display.rs:445-520 | then cell (x, y) shows character (y + S) * width + x or nothing, with S the number of rows scrolled away |
| `DisplayLaws.CarriageReturn` | kernel/src/display.rs:488-488 | moves the cursor to the start of its row and changes nothing else |
| `DisplayLaws.LineFeed` | kernel/src/display.rs:484-508 | moves the cursor to the start of the next row; appends a blank row if there is none; all cells stay |
| `DisplayLaws.BackspaceAtTheStart` | kernel/src/display.rs:388-423 | does nothing in the first column |
| `DisplayLaws.BackspaceErases` | kernel/src/display.rs:388-423 | cell by cell: the cell before the cursor goes, the rest of its row moves up, its last cell is blank, all others stay |
| `DisplayLaws.DeleteErases` | kernel/src/display.rs:388-423 | the same for the cell at the cursor, which stays |
| `DisplayLaws.SelectedColours` | kernel/src/display.rs:462-479 | the colour of every code, by its text |
| `DisplayLaws.OtherCodesKeepTheColour` | kernel/src/display.rs:464-479 | codes of up to three digits that are not in the table change nothing |
| `DisplayLaws.UnfinishedEscape` | kernel/src/display.rs:448-483 | ESC [ digits without m prints the ESC and swallows the rest |
| `DisplayLaws.TypingReplaces` | kernel/src/display.rs:491-494 | plain text within a row replaces exactly the cells from the cursor on, in the current colour |
| `DisplayLaws.OverwrittenLine` | kernel/src/display.rs:445-520 | text after a carriage return overwrites the row from its start, and what it does not reach stays |
| `DisplayLaws.LinesFillTheDocument` | kernel/src/display.rs:445-520 | any number of lines shorter than a row, with line feeds between them, on a cleared screen: each line gets its row |
| `DisplayLaws.LinesOnScreen` | kernel/src/display.rs:445-520 | then the last lines are on the screen, cell by cell, and the cursor is behind the last one |
| `Tty.TTY.constructor` | kernel/src/display.rs:294-312 | the grid of the framebuffer, bounded by the buffer, blank |
| `Tty.TTY.ClearTty` | kernel/src/display.rs:330-346 | shows the cleared document |
| `Tty.TTY.SetChar` | kernel/src/display.rs:314-321 | changes exactly one cell inside the grid, nothing outside it |
| `Tty.TTY.GetChar` | kernel/src/display.rs:323-328 | reads the screen, exactly inside the grid |
| `Tty.TTY.ScrollUp` | kernel/src/display.rs:349-363 | drops the first row and appends a blank one, in place |
| `Tty.TTY.Delete` | kernel/src/display.rs:388-423 | erases before or at the cursor as the document says |
| `Tty.TTY.PutChar` | kernel/src/display.rs:484-503 | one character with wrapping and scrolling refines the document |
| `Tty.TTY.WriteStr` | kernel/src/display.rs:445-520 | for every string and grid, the buffer shows the last rows of the document, the cursor stays inside, and no index is out of bounds |
| `UstarModel.OctInvertsDigits` | kernel/src/drivers/ustar.rs:43-54 | reading inverts octal notation |
| `UstarModel.OctBound` | kernel/src/drivers/ustar.rs:43-54 | no size field overflows, not even with digits 8 and 9 |
| `UstarModel.OctAppend` | kernel/src/drivers/ustar.rs:43-54 | appending a digit, even 8 or 9, multiplies by eight and adds it |
| `UstarModel.OctStops` | kernel/src/drivers/ustar.rs:43-54 | what follows the first byte that is not a digit does not matter |
| `UstarModel.Utf8Iff` | kernel/src/drivers/ustar.rs:95-107 | a name passes exactly if it is the encoding of some text |
| `UstarModel.AsciiIsUtf8` | kernel/src/drivers/ustar.rs:95-107 | every ASCII name passes |
| `UstarModel.FileMeaning` | kernel/src/drivers/ustar.rs:64-126 | a file is a whole block with the five signature bytes and all the announced data; what its name and data are |
| `UstarModel.EntriesAreThere` | kernel/src/drivers/ustar.rs:64-126 | on any bytes, every entry found is a file that starts at a block of the image |
| `UstarModel.RoundTrip` | kernel/src/drivers/ustar.rs:64-126 | iterating over any archive of storable files, with arbitrary other header bytes, yields exactly those files |
| `UstarModel.EncodeIsArchive` | kernel/src/drivers/ustar.rs:64-126 | a writer produces such archives |
| `UstarModel.EncodeDecode` | kernel/src/drivers/ustar.rs:64-126 | writing and reading gives the files back |
| `UstarModel.ReadFileAgreesWithFilesIff` | kernel/src/drivers/ustar.rs:138-193 | read_file is the first of files() with the name, for every name, exactly if all names are UTF-8 |
| `UstarModel.FirstNamedMeaning` | kernel/src/drivers/ustar.rs:138-186 | nothing if no file has the name, otherwise the first one that has it |
| `UstarModel.BadNameImage` | kernel/src/drivers/ustar.rs:64-186 | an image whose only name is not UTF-8: files() shows nothing, read_file panics |
| `UstarModel.EntriesAreFew` | kernel/src/drivers/ustar.rs:64-186 | an image has at most len / 512 entries |
| `UstarReader.Oct2Bin` | kernel/src/drivers/ustar.rs:43-54 | the loop computes the value of the leading digits |
| `UstarReader.USTarFileIterator.Next` | kernel/src/drivers/ustar.rs:64-126 | yields the next file of the rest of the image or, for good, nothing; no index or addition goes wrong on any bytes |
| `UstarReader.USTar.ReadFile` | kernel/src/drivers/ustar.rs:138-186 | the first entry of that name; panics exactly at a matching name that is not UTF-8; at most len / 512 turns of the loop |
| `UstarReader.Collect` | kernel/src/drivers/ustar.rs:188-193 | draining the iterator yields the files of the image, with one call for each and one more, at most len / 512 + 1 |
| `UstarReader.Drain` | kernel/src/drivers/ustar.rs:188-193 | on an archive, exactly the stored files |
| `Frames.UsableFramesMeaning` | kernel/src/memory.rs:66-76 | every frame of every usable region, exactly once, and nothing else |
| `Frames.FramesOfRegion` | kernel/src/memory.rs:66-76 | the k-th frame of a usable region, as long as it begins in it |
| `Frames.FramesInMapOrder` | kernel/src/memory.rs:66-76 | regions contribute in the order of the memory map |
| `Frames.BootInfoFrameAllocator.AllocateFrame` | kernel/src/memory.rs:80-84 | the n-th call returns the n-th usable frame, and then None forever |
| `Frames.AllocateMany` | kernel/src/memory.rs:66-84 | any number of calls: distinct usable frames, all of them if there are enough calls |
| `Pages.Paging.MapRange` | kernel/src/allocator/mod.rs:99-111 | maps exactly the pages of the range, each to a frame just taken; on failure, for want of frames or because the next page is taken, exactly the pages before that one, and all old mappings stay |
| `Pages.PagesForIsLeast` | kernel/src/allocator/mod.rs:174-174 | as few pages as hold the bytes |
| `Pages.Paging.InitHeap` | kernel/src/allocator/mod.rs:22-47 | maps exactly the heap's pages; on failure exactly those before the one that failed, and its cause |
| `Pages.Paging.AllocPages` | kernel/src/allocator/mod.rs:86-112 | the range at the cursor, which moves past it; panics only for the address budget, frames, or a taken page |
| `Pages.Paging.AllocPagesUser` | kernel/src/allocator/mod.rs:114-141 | the same, user accessible, with its own cursor |
| `Pages.Paging.Alloc` | kernel/src/allocator/mod.rs:165-187 | null exactly for 0 bytes; otherwise a page-aligned range of at least two pages that covers the bytes |
| `Pages.Paging.Free` | kernel/src/allocator/mod.rs:189-207 | succeeds exactly if all pages are mapped and none lies in a huge page, and unmaps exactly those; on failure exactly the pages before the one that failed, with the error for that page |
| `Pages.PagesHaveTheirOwnFrames` | kernel/src/allocator/mod.rs:22-141 | no two pages mapped by this code share a frame |
| `Pages.FramesAreNotShared` | kernel/src/allocator/mod.rs:22-141 | nor does a page share the frame of a page table |
| `Pages.AllocateAll` | kernel/src/allocator/mod.rs:86-187 | any sequence of kernel and user allocations: blocks disjoint, large enough, mapped with the right access, and nothing else mapped; it stops only where the next block has no room at its cursor |
| `Pages.AllocThenFree` | kernel/src/allocator/mod.rs:165-207 | the page table is restored exactly if more than 4096 bytes were asked for; the allocation fails only for want of room |
| `Pages.OneByteLeavesAPage` | kernel/src/allocator/mod.rs:165-207 | after allocating and freeing one byte a page stays mapped |
| `Elf.RequiredCoversAll` | kernel/src/elf.rs:67-77 | the accumulated size covers every loadable segment, in any order |
| `Elf.RequiredBounds` | kernel/src/elf.rs:67-77 | the size is at least what the segments take, and more only by their addresses |
| `Elf.RequiredOfAdjacent` | kernel/src/elf.rs:67-77 | for segments that follow one another without a gap, exactly the end of the last one |
| `Elf.SizeSegments` | kernel/src/elf.rs:67-77 | the loop computes it, and panics exactly if it does not fit 64 bits |
| `Elf.ImageIsBounded` | kernel/src/elf.rs:67-108 | every byte of the image lies below the accumulated size |
| `Elf.LastSegmentWins` | kernel/src/elf.rs:87-108 | what is at an address is decided by the last segment that covers it: file bytes, then zeros; nothing where none does |
| `Elf.DisjointSegmentsAreComplete` | kernel/src/elf.rs:87-108 | segments that do not overlap are there in full: file bytes, then zeros |
| `Elf.Process.LoadSegments` | kernel/src/elf.rs:87-108 | memory from the base on is the image of the headers, and nothing else changes; stops exactly if a file slice is out of range |
| `Elf.Process.Init` | kernel/src/elf.rs:54-112 | InvalidElf exactly if parsing fails, AllocationError exactly for size 0; otherwise, without a panic, it is Ok: every byte written lies in a user page mapped by this call and memory is the image; each panic has its cause |
| `Pci.EcamSum` | kernel/src/pci.rs:18-31 | the ECAM address: a megabyte for each bus, 32 KiB for each slot, 4 KiB for each function (section 7.2.2 of the PCI Express Base Specification) |
| `Pci.EcamWindow` | kernel/src/pci.rs:18-31 | accesses to buses up to the last one stay in the window of that many megabytes |
| `Pci.EcamPage` | kernel/src/pci.rs:18-31 | each function has a 4 KiB page of its own |
| `Pci.EcamFunctionsApart` | kernel/src/pci.rs:18-31 | two addresses are equal iff bus, slot, function and offset are |
| `Pci.Cf8Sum` | kernel/src/pci.rs:65-108 | the CF8 value, field by field, with the enable bit and the dword within 256 bytes |
| `Pci.Cf8AddressesDiffer` | kernel/src/pci.rs:65-108 | two CF8 values are equal iff bus, slot, function and dword within 256 bytes are |
| `Pci.ExtendedOffsetsAlias` | kernel/src/pci.rs:65-108 | offset 0x100 has the CF8 value of offset 0 |
| `Pci.BarRegistersKeep` | kernel/src/pci.rs:184-227 | registers of every kind of BAR show the same after their value is written back |
| `Pci.PCIDevice.ReadBar` | kernel/src/pci.rs:154-166 | the low register and its two type tests, none iff the number is above 5 |
| `Pci.PCIDevice.ProbeBarSize` | kernel/src/pci.rs:184-227 | for I/O, 32-bit and 64-bit BARs of every size it returns the size, None for an absent one, and leaves configuration space as it was |
| `Pci.PCIDevice.ReadConfigU16` | kernel/src/pci.rs:128-130 | two bytes at the offset, as far as the dword goes |
| `Pci.PCIDevice.ReadConfigU8` | kernel/src/pci.rs:132-134 | the byte at the offset |
| `Pci.PCIDevice.WriteConfigU16` | kernel/src/pci.rs:136-143 | writes back the dword with exactly the two bytes replaced, or only the last one when straddling |
| `Pci.PCIDevice.WriteConfigU8` | kernel/src/pci.rs:145-152 | writes back the dword with exactly that byte replaced |
| `Pci.PCIDevice.WriteAndReadU16` | kernel/src/pci.rs:128-143 | reads back the value exactly if it did not straddle or was a byte; other bytes are unchanged |
| `Pci.StraddlingWriteIsCut` | kernel/src/pci.rs:128-143 | 0x1234 written at the last byte of a dword reads back as 0x34 |
| `Acpi.ChooseEntry` | kernel/src/acpi.rs:63-74 | the first entry of segment group 0, none iff there is none |
| `Acpi.WindowEndsWithLastRegister` | kernel/src/acpi.rs:76-77 | a megabyte for each bus of the entry; from bus 0 the window ends exactly with the last register of the last bus |
| `Acpi.BackwardsEntry` | kernel/src/acpi.rs:76-77 | an entry that ends before it starts still gets one megabyte |
| `Acpi.MapEcamRegion` | kernel/src/acpi.rs:100-168 | on fresh addresses, success means every physical address of the window is seen at its own address plus the offset, and failure has its cause; old mappings always stay, and new ones are in the window and not for user code; on mapped addresses nothing changes |
| `Acpi.FrameCountIsExact` | kernel/src/acpi.rs:110-120 | the frames counted are exactly those that hold some byte of the window |
| `Acpi.RegistersAreMapped` | kernel/src/acpi.rs:76-82 | then every register of every function on the entry's buses is seen through the ECAM base, if the entry starts at bus 0 |
| `Acpi.AccessesStayInWindowIff` | kernel/src/acpi.rs:76-77 | the window holds the first access to each of the entry's buses exactly if the entry starts at bus 0 |
| `Acpi.BusOneIsOutside` | kernel/src/acpi.rs:76-77 | an entry for bus 1 alone: its first register is outside the window |

## Left out

- Builds in which integer overflow wraps instead of panicking.
- Words are 8 bytes and accesses to them aligned; single bytes of allocator memory have no values of their own in the allocator models.
- The code of the fallback heap (`linked_list_allocator`), `AtomicWaker`, `ArrayQueue`, `goblin`, `OffsetPageTable` and the ACPI tables' parser: their promises are parameters or single steps of the model.
- `ExecutorKernel.Kernel.RunReadyTasks`: takes a bound on its turns, because the loop of the source need not end; `Executor::run` itself is the transition system.
- `ExecutorModel.RunKeepsInv`: says nothing after 2^64 spawned tasks, when ids wrap around.
- After a panic of the executor nothing is claimed: a full task queue is a terminal state.
- Tasks are spawned before the executor runs, as in the source; tasks other than the reader of the scancode stream are arbitrary.
- How many page-table frames a mapping needs, and the levels of the page table: any number up to three is allowed.
- `Pages.Paging.Free`: a range that reaches past the end of the address space, where computing the address panics.
- `Acpi.MapEcamRegion`: when the start of the window is mapped already, the source looks at that one page only, and so does the contract.
- `Elf.Process.Init`: headers are a parameter, as parsing is not part of this model; the contract names the possible causes of a panic without saying which comes first.
- `Pages.Paging.AllocPages`: nothing is said about the page table after a panic, which the kernel does not survive.
- Physical and virtual addresses that are not canonical.
- Framebuffer pixels, fonts, `yay` and `sad`, the `clear-on-scroll` build, and framebuffers smaller than one character.
- Base address registers of I/O BARs that decode only 16 bits; `bar_address`, `scan_pci_bus` and `enable_bus_master`.
- `USTarFile::read_to_end`, and how the ramdisk gets into memory.
- Device drivers that choreograph hardware (network, disks), interrupt and descriptor tables, system calls, serial port, timers, logging and PNG decoding.
