# A verified model of the mochiOS kernel core

This project models, in Dafny, the parts of the x86-64 kernel whose correctness rests on
state kept in memory: the page tables over a pool of physical frames, the loading of program
segments, the IPC mailbox, the ext2 reader, the terminal's output state machine, the futex
queue, file handles shared between processes, the initial user stack, the module container
format and signal delivery. It proves what each of them promises, over every input, every run
or every reachable state.

How the machine is represented:

- Physical memory (`Memory.dfy`) maps frame numbers to pages of 512 words; a word is a
  page-table entry split into frame number, flags and the bits the kernel never names. The
  bytes of a page come from a word layout that must round-trip, and the little-endian layout
  is proved to be one. A frame never written reads as zeros.
- A page table is described by a tree: a ghost map `own` gives every table frame the path of
  indices that leads to it, so two tables never share a frame, and none of them is available
  to the allocator. `Walk` follows a page number through the tree and is the reference
  definition behind every translation.
- Where the kernel updates fields, arrays or frames in place, the model is a class or an array
  with a method per function; where it only computes, the model is a function with lemmas.
- A page table may carry a record of where its frames came from (`Origin` in `Segments.dfy`): the
  frames it had, and the pool that was available then. Loading keeps the record balanced, which
  is what makes load followed by teardown give every frame back.
- Whole runs are sequences of operations folded from the initial state.
- Clocks, randomness, the identity of the current process, the UTF-8 test and the user's own
  memory accesses are parameters or arbitrary inputs.

| file | source | what it covers |
|---|---|---|
| `Memory.dfy`, `Bytes.dfy` | | words, pages, bytes, little-endian numbers |
| `Frames.dfy` | `src/core/mem/frame.rs` | the frame allocator and its in-memory free list |
| `PageTables.dfy`, `Mapping.dfy` | `src/core/mem/paging.rs` | walks, mapping and unmapping one page |
| `UserCopy.dfy` | `src/core/mem/paging.rs` | user translation, copies and range checks |
| `Teardown.dfy` | `src/core/mem/paging.rs` | destroying a user page table |
| `SharedPages.dfy` | `src/core/syscall/privileged.rs` | allocating shared pages, with rollback |
| `Segments.dfy`, `Loader.dfy`, `ElfImage.dfy` | `src/core/mem/paging.rs`, `src/core/task/elf.rs` | program segments, ELF program headers, what the user then finds |
| `Lifetimes.dfy` | `src/core/mem/paging.rs` | loading a program and tearing its table down again |
| `Mailbox.dfy` | `src/core/syscall/ipc.rs` | the mailbox and the kernel's send functions |
| `Ext2.dfy`, `Ext2Paths.dfy`, `Ext2Format.dfy` | `src/core/init/fs.rs` | file contents, directories, paths; the format on disk |
| `Tty.dfy`, `TtyLaws.dfy` | `src/core/syscall/tty.rs` | the terminal's output state machine and its laws |
| `Futex.dfy` | `src/core/syscall/process.rs` | the futex wait queue |
| `FdTable.dfy` | `src/core/task/fd_table.rs`, `src/core/syscall/fs.rs` | descriptor tables and remote handle counts |
| `InitialStack.dfy` | `src/core/syscall/exec.rs` | the first stack page of a process |
| `Cext.dfy` | `builders/modules.rs`, `src/core/kmod/mod.rs` | the module container format |
| `Signal.dfy` | `src/core/syscall/signal.rs`, `src/core/task/signal.rs` | signal state, frames and return |

## Model

| member | source | states |
|---|---|---|
| `Memory.ByteAfterStore` | src/core/mem/paging.rs:1371-1387 | bytes copied into a frame are read back, and every other byte of every frame is as before |
| `Memory.LittleEndianFaithful` | src/core/mem/frame.rs:59-63 | the little-endian layout of entry words round-trips every page of bytes, so memory can be seen as words and as bytes |
| `Bytes.FromLeDigit` | src/core/init/fs.rs:176-183 | byte `i` of a little-endian number is its digit `i` to the base 256 |
| `Frames.NextUsable` | src/core/mem/frame.rs:107-136 | the bump search returns the least usable frame at or after the cursor, and nothing only if there is none |
| `Frames.AllocateKeeps` | src/core/mem/frame.rs:97-138 | from a well-formed state an allocation takes exactly one available frame, usable and not 0, keeps the in-memory list well formed and touches no other frame; it fails, changing nothing, only when no frame is available |
| `Frames.DeallocateKeeps` | src/core/mem/frame.rs:52-65 | returning a frame that is in use makes exactly that frame available, or is refused exactly when it is not usable or there is no direct map |
| `Frames.FreeListDistinct` | src/core/mem/frame.rs:60-63 | the list threaded through the freed frames has no repetition and never holds frame 0 |
| `Frames.RunKeeps` | src/core/mem/frame.rs:33-138 | every run of allocations, frees of held frames and writes to held frames keeps the list well formed and the frames conserved |
| `Frames.AllocatorSafety` | src/core/mem/frame.rs:33-138 | from boot, after any such run: the free list is acyclic and without repetition, held and free frames are together exactly the usable frames bumped so far, the next frame handed out is not held, usable and at or above 1 MiB, and none is handed out if and only if all usable frames are held |
| `Frames.WholeFrameUsable` | src/core/mem/frame.rs:44-50 | with page-aligned regions every byte of a frame judged usable lies in a usable region |
| `Frames.UsableIsWhole` | src/core/mem/frame.rs:44-50 | a frame all of whose bytes lie in one usable region is usable, and on a page-aligned map no other frame is |
| `Frames.AllocatorSafetyInBytes` | src/core/mem/frame.rs:33-138 | from boot, after any run on a page-aligned map: the next frame lies wholly in a usable region, at or above 1 MiB, and is not held; none is given if and only if every such frame is held |
| `Frames.Machine.constructor` | src/core/mem/frame.rs:35-42 | the allocator starts well formed at 1 MiB with an empty list |
| `Frames.Machine.AllocateFrame` | src/core/mem/frame.rs:97-138 | the code computes the specified allocation; the set of available frames loses exactly the frame returned |
| `Frames.Machine.DeallocateFrame` | src/core/mem/frame.rs:52-65 | the code computes the specified return; the set of available frames gains exactly that frame |
| `PageTables.IndicesArePage` | src/core/mem/paging.rs:272-314 | the four 9-bit indices cut from an address are the base-512 digits of its page number |
| `PageTables.TranslateIsWalk` | src/core/mem/paging.rs:260-326 | the unrolled translation equals the recursive walk, with the right offset for 4 KiB, 2 MiB and 1 GiB pages |
| `PageTables.PageOfInjective` | src/core/mem/paging.rs:1794-1795 | two canonical addresses share a page number in the table only if they lie in the same page |
| `PageTables.GrowKeeps` | src/core/mem/paging.rs:1799-1813 | hanging a zeroed frame into an empty upper slot keeps the tree and changes no walk |
| `PageTables.ReflagKeeps` | src/core/mem/paging.rs:1815-1818 | widening the flags of an upper entry keeps the tree and changes no walk |
| `PageTables.LeafKeeps` | src/core/mem/paging.rs:1900-1910 | writing a level-1 entry keeps the tree and changes the walk of its own page only |
| `PageTables.GuidedForUser` | src/core/mem/paging.rs:347-415 | a user page all of whose upper entries admit the user is found by the walk that checks user access at every level |
| `Mapping.CreateTable` | src/core/mem/paging.rs:1799-1813 | a missing table is made of a frame that was available, zeroed and hung into the slot, with no walk changed; failure means no frame was left or one lies outside the direct map |
| `Mapping.NextTable` | src/core/mem/paging.rs:1799-1819 | the table below a slot, created or opened to the user as asked, with no walk changed |
| `Mapping.TableFor` | src/core/mem/paging.rs:1789-1898 | descending to a level leads the page to a table of its own path, opened to the user as asked, or reports a large page on the way |
| `Mapping.InstallLeaf` | src/core/mem/paging.rs:1789-1913 | on success the walk of the page ends in the new entry, on failure no walk has changed |
| `Mapping.MapPage` | src/core/mem/paging.rs:1767-1913 | the tree is kept; on success the page's walk ends in the frame with the flags asked for and, if asked, is open to the user at every level; other walks never change; the call is refused for alignment exactly when an address is unaligned, as already mapped exactly when the page lies in a large page, and for memory only if the path is stuck at a table that could not be made or lies outside the direct map |
| `Mapping.UnmapPage` | src/core/mem/paging.rs:1924-1990 | the page is untranslated afterwards unless the alignment was refused, other walks never change, on an error memory is unchanged, and the path error is given exactly when the path leads to a table outside the direct map |
| `Mapping.MapPageInTable` | src/core/mem/paging.rs:1767-1913 | in addresses: after success every address of the page translates to the physical page plus its offset, after an error as before, and every address of another page always as before |
| `Mapping.MapThenUnmap` | src/core/mem/paging.rs:1767-1990 | mapping and then unmapping leaves the page untranslated and every other address as it was |
| `UserCopy.UserWalkIsWalk` | src/core/mem/paging.rs:347-415 | the walk that checks user access ends in the same entry as the plain walk |
| `UserCopy.TranslateUserIsFrame` | src/core/mem/paging.rs:421-441 | user translation gives the frame of the page plus the offset, and nothing without user access, without write access when asked for, or past the end of user space |
| `UserCopy.UserPathIsWalk` | src/core/mem/paging.rs:347-415 | the walk that checks user access succeeds exactly if each entry from the root down, read level by level, is present and the user's, and ends in the last of them |
| `UserCopy.FrameNeedsPath` | src/core/mem/paging.rs:421-441 | an address has a frame for the user if and only if it is in user space, every entry on its path is present and the user's, and the last one is writable where that is asked for |
| `UserCopy.IsUserRangeMapped` | src/core/mem/paging.rs:538-565 | checking page by page answers whether every byte of the range has a user frame; the empty range is in user space |
| `UserCopy.CopyFromUser` | src/core/mem/paging.rs:451-492 | succeeds if and only if nothing is asked for, or the pointer is not null and every byte is accessible, and then equals the byte-by-byte definition, for any alignment and any mix of page sizes; success means every entry on every path is present and the user's |
| `UserCopy.CopyToUser` | src/core/mem/paging.rs:494-535 | succeeds if and only if every byte is accessible for writing, which means that every entry on every path is present and the user's and the last one writable; memory is the byte-by-byte write of the part copied, tables unchanged; on failure that part ends exactly at the first page that cannot be written, and the error says why |
| `UserCopy.WrittenReadsBack` | src/core/mem/paging.rs:451-535 | bytes written through a mapping are read back through it if and only if no two addresses of the range that share a physical byte were given different values |
| `UserCopy.CopyThereAndBack` | src/core/mem/paging.rs:451-535 | a copy to the user that succeeds can be copied back, and gives the same bytes under exactly that condition |
| `UserCopy.AccessibleIsMapped` | src/core/mem/paging.rs:451-565 | a range can be copied if and only if it is mapped for the user and its frames are inside the direct map |
| `UserCopy.MappedIsCopied` | src/core/mem/paging.rs:451-565 | where the direct map has room for every physical address, being mapped and being copyable are the same |
| `UserCopy.MappedButNotCopied` | src/core/mem/paging.rs:482-484 | a concrete table, with the direct map at the start of the upper half, whose range is mapped and cannot be copied, because the direct map ends before the frame |
| `Teardown.SubtreeIsReached` | src/core/mem/paging.rs:1563-1651 | the frames listed below a table are exactly those reached along user entries |
| `Teardown.SubtreeNoDup` | src/core/mem/paging.rs:1563-1620 | on a tree the list has no repetition |
| `Teardown.SubtreeFrame` | src/core/mem/paging.rs:1563-1620 | the list depends only on the frames at or below the table, so freeing elsewhere cannot change it |
| `Teardown.Destroy` | src/core/mem/paging.rs:1563-1620 | tearing down a table hands over its subtree in order, read only from frames not yet freed, and changes no frame outside it |
| `Teardown.DestroyUserPageTable` | src/core/mem/paging.rs:1623-1651 | a null or unaligned root is refused with nothing changed, whatever the tables; otherwise every table and 4 KiB user page reached from the root is handed over exactly once and nothing else is; exactly the usable ones become available; frames outside the tree are untouched |
| `SharedPages.DeallocateFrames` | src/core/syscall/privileged.rs:27-37 | distinct held frames all become available again and no other frame is touched |
| `SharedPages.AllocateFrames` | src/core/syscall/privileged.rs:243-253 | as many distinct frames as asked for are taken, or there were fewer and all are back |
| `SharedPages.MapRange` | src/core/syscall/privileged.rs:319-330 | the pages are mapped in order, or a table could not be made and no walk has changed |
| `SharedPages.UnmapRange` | src/core/syscall/privileged.rs:326-329 | the first pages of the range are untranslated again, all other walks unchanged |
| `SharedPages.Undo` | src/core/syscall/privileged.rs:325-329 | the rollback restores every walk to the state before the first page was mapped |
| `SharedPages.Report` | src/core/syscall/privileged.rs:342-363 | the addresses reach the user byte for byte with the mapping kept, or the user cannot write there and the mapping is undone |
| `SharedPages.ToldIsRead` | src/core/syscall/privileged.rs:342-363 | reading eight bytes at place `i` of the user's array, little-endian, gives the physical address of page `i` |
| `SharedPages.Reserve` | src/core/syscall/privileged.rs:274-317 | the target is the hint, or the first page past the heap with the heap end moved; refused exactly without a process or page table, for an unaligned hint, or when the range would overflow |
| `SharedPages.MapAndReport` | src/core/syscall/privileged.rs:319-367 | mapped, reported and the frames still held; or every walk restored and every frame available again or kept as a table |
| `SharedPages.AllocSharedPages` | src/core/syscall/privileged.rs:224-368 | all or nothing: on every error the heap end, all walks and the available frames less those kept as tables are as before, and each error code has its cause; a request for no pages, for more than the machine has or for a short array is invalid; on success the range starts at the hint or on the first page boundary from the heap end on, and is backed page by page, in order, by distinct frames, whose addresses are written for the user in that order |
| `Segments.EnsureTable` | src/core/mem/paging.rs:1039-1153 | one level of the hierarchy is created or opened with every right for the user, no walk changed; failure means no frame was left; a table made here is recorded as reachable from the root |
| `Segments.EnsureHierarchy` | src/core/mem/paging.rs:1039-1153 | afterwards the page is led to its level-1 table through entries that give the user every right, other open paths stay open, and no walk has changed |
| `Segments.SetLeaf` | src/core/mem/paging.rs:1336-1369 | the page keeps its user frame and bytes or gets the zeroed frame; writable as asked, executable as asked or as before; refused exactly when the user's page would become writable and executable, with the frame given back |
| `Segments.LoadPage` | src/core/mem/paging.rs:1283-1387 | one page holds its old bytes or zeros with the file bytes laid over; on failure it is untouched and the cause is given: no frame left, clashing rights, or a table at physical address 0 |
| `Segments.LoadPages` | src/core/mem/paging.rs:1276-1390 | every page of the range is loaded and no page outside it is touched; on an error no frame was left, or some page's rights clashed from the start, or a table of its path lies at physical address 0 |
| `Segments.MapAndCopySegment` | src/core/mem/paging.rs:1171-1401 | for all arguments: which are refused and with which error; on success the file bytes, zeros in new pages, old bytes in pages the user had, the protection flags and user access; outside the range nothing changes; on failure the causes, including the refusal of a table at physical address 0; frames taken from the pool end as tables or pages reachable from the root, or go back to it |
| `Loader.HeaderWellFormed` | src/core/task/elf.rs:172-205 | a program header that passes the checks describes a segment whose file part fits its memory part and that is not writable and executable |
| `Loader.LoadedSnoc` | src/core/task/elf.rs:206-214 | loading one more segment lays it over the image of those before |
| `Loader.DisjointImage` | src/core/task/elf.rs:172-215 | with disjoint segments the order of loading does not matter: an address in a segment shows that segment |
| `Loader.ProgramImage` | src/core/task/elf.rs:172-215 | disjoint segments loaded into a table without user pages: at every address below 2^48 the user's page holds the file byte, or zero in the rest of the pages touched, and no other page of any size belongs to the user |
| `Loader.ProgramForUser` | src/core/task/elf.rs:172-215 | up to the end of user space the checked user translation reads exactly the bytes of the loaded pages, and nothing elsewhere |
| `Loader.RightsStep` | src/core/mem/paging.rs:1336-1369 | after loading, a page is writable as the last segment that touches it asks, and executable if some segment that touches it asks for that or it was so before; the user can both write and execute it if and only if it was mapped executable before without being the user's, and a writable segment alone touches it |
| `Loader.WriteXorExecuteKept` | src/core/mem/paging.rs:1259-1369 | loading any list of segments keeps the table free of writable and executable pages if and only if no writable segment alone covers a page that was executable and not the user's |
| `Loader.KernelPageUnmasked` | src/core/mem/paging.rs:1344-1350 | a concrete table, without writable and executable user pages, in which a writable segment over an executable page of the kernel makes one |
| `Loader.LoadProgram` | src/core/task/elf.rs:158-215 | success means the segments of all headers are loaded in order; failure means everything before some header was loaded, that header is malformed or cannot be loaded for the cause given, and since then only pages it asks for have changed |
| `Loader.StoppedKeeps` | src/core/task/elf.rs:158-215 | a load that stopped left every page alone that no header asks for |
| `Loader.TouchedIsAsked` | src/core/task/elf.rs:172-215 | the segments of the headers touch exactly the pages that some header asks for |
| `ElfImage.LoadImage` | src/core/task/elf.rs:158-215 | loading a file into a table without user pages: the program headers are those whose fields stand, little-endian, at the offsets of the ELF-64 format; if no two of them ask for one address, the user reads at p_vaddr + bias + k byte p_offset + k of the file for k < p_filesz, 0 up to p_memsz and in the rest of the pages reached, and nothing elsewhere, at every address of user space; a page is writable iff the last header that reaches it has bit 1 of p_flags, and executable iff some header that reaches it has bit 0 or it was so before; write xor execute holds if and only if the load unmasked no executable page |
| `ElfImage.HeaderVerdict` | src/core/task/elf.rs:172-205 | what a header asks for, in terms of its fields: nothing unless it is PT_LOAD with memory; the two refusals with their errors; and otherwise the bytes of the file at p_offset, the address with the bias, and the rights |
| `ElfImage.HeaderMissing` | src/core/task/elf.rs:172-178 | a header is refused as missing exactly when the file ends before it does |
| `ElfImage.ProgramIsHeaders` | src/core/task/elf.rs:172-215 | the segments loaded are those of the headers that ask for something, in their order |
| `ElfImage.TouchesReaches` | src/core/mem/paging.rs:1171-1290 | a segment touches exactly the pages that have one of its addresses |
| `Loader.LoadThenCopy` | src/core/mem/paging.rs:451-1401 | copying from the user what was just loaded succeeds and gives the file bytes back |
| `Lifetimes.LoadedTree` | src/core/mem/paging.rs:1563-1651 | a table made for loading meets the conditions of teardown: every table and page has one place, where teardown meets it |
| `Lifetimes.TakenIsReached` | src/core/mem/paging.rs:1039-1651 | every frame that loading took and did not give back is reached from the root along user entries |
| `Lifetimes.DestroyLoaded` | src/core/mem/paging.rs:1623-1651 | destroying such a table makes all frames available again that were available when its record began |
| `Lifetimes.LoadThenDestroy` | src/core/mem/paging.rs:1039-1651 | load any program into a page table, whether or not that succeeds, and destroy the table: every frame available before is available again, and any other available frame belonged to the table before |
| `Mailboxes.PartitionSize` | src/core/syscall/ipc.rs:39-70 | if ring, free stack and held slot partition the 64 indices then their sizes add up to 64 and the held slot is in neither |
| `Mailboxes.Mailbox.constructor` | src/core/syscall/ipc.rs:53-70 | a new mailbox is well formed and empty |
| `Mailboxes.Mailbox.AllocSlot` | src/core/syscall/ipc.rs:72-78 | fails exactly when the free stack is empty, and otherwise takes a slot that is in neither part |
| `Mailboxes.Mailbox.FreeSlot` | src/core/syscall/ipc.rs:85-105 | accepts exactly an index in range that is not free yet, and blanks the slot |
| `Mailboxes.Mailbox.EnqueueSlot` | src/core/syscall/ipc.rs:107-115 | appends to the ring unless all 64 places are taken |
| `Mailboxes.Mailbox.DequeueSlot` | src/core/syscall/ipc.rs:117-125 | takes the head of the ring |
| `Mailboxes.Mailbox.Post` | src/core/syscall/ipc.rs:142-156 | enqueueing an allocated slot never fails |
| `Mailboxes.Mailbox.Release` | src/core/syscall/ipc.rs:175-198 | returning a dequeued slot never fails, so the quarantine is never reached |
| `Mailboxes.Mailbox.PushMessage` | src/core/syscall/ipc.rs:127-157 | refines a bounded queue: the message is appended, or it is too long or the queue is full and nothing changes |
| `Mailboxes.Mailbox.PopValid` | src/core/syscall/ipc.rs:159-199 | delivers the first message whose thread id, slot and generation are all those of the receiver and drops exactly those before it, each of which differs in one; with none, drops all |
| `Mailboxes.Mailbox.PopFromSender` | src/core/syscall/ipc.rs:202-242 | with `k` the first message of the sender to this thread id, slot and generation, delivers it and leaves `q[k+1..] + q[..k]`; with none, contents and order are unchanged |
| `Mailboxes.Mailbox.TakeWaiter` | src/core/syscall/ipc.rs:245-249 | takes the waiting thread and clears it |
| `Mailboxes.SendFromKernel` | src/core/syscall/ipc.rs:255-285 | a reachable mailbox gets the message with its generation tag and the waiter is woken, or the message is too long or the queue full and nothing changes |
| `Mailboxes.SendPagesFromKernel` | src/core/syscall/ipc.rs:289-350 | the same for a message carrying pages, whose bytes are the start and the total, little-endian |
| `Mailboxes.SendMapHeaderFromKernel` | src/core/syscall/ipc.rs:353-416 | the same for the map header with its magic number |
| `Mailboxes.SendThenReceive` | src/core/syscall/ipc.rs:159-285 | a message the kernel sends to a thread with nothing else waiting for it is what the thread receives next, bytes and sender included |
| `Mailboxes.WithoutConserves` | src/core/syscall/ipc.rs:202-242 | the rotation loses and duplicates no message |
| `Mailboxes.SelectiveKeepsOwnOrder` | src/core/syscall/ipc.rs:202-242 | the other messages of the selected sender to the receiver keep their order |
| `Mailboxes.OtherSendersOrder` | src/core/syscall/ipc.rs:202-242 | messages of another sender keep their order if and only if all of them lie on one side of the match |
| `Mailboxes.RunConserves` | src/core/syscall/ipc.rs:127-242 | over any run, what was sent is what was received, dropped as stale or is still queued, message for message |
| `Mailboxes.OnlyOwnDelivered` | src/core/syscall/ipc.rs:127-242 | over any run a message is delivered only to a receiver of its own thread id, slot and generation, and dropped only by a receiver that differs in one of them |
| `Mailboxes.ChannelFifo` | src/core/syscall/ipc.rs:127-242 | over any run where only the receiver takes messages, selecting at most that sender, a sender's messages arrive in the order sent |
| `Ext2.SuperblockSane` | src/core/init/fs.rs:186-208 | any accepted superblock has block size 0 or a multiple of 4 between 1 KiB and 2 GiB |
| `Ext2.OffsetsFit` | src/core/init/fs.rs:210-258 | for any image no inode or block offset overflows 64 bits |
| `Ext2.ReadInode` | src/core/init/fs.rs:221-245 | reads the inode the specification describes, for any image and number, or nothing |
| `Ext2.DataBlockIsMapped` | src/core/init/fs.rs:260-307 | the block arithmetic indexes the list of direct, then single-indirect, then double-indirect blocks |
| `Ext2.FileBytes` | src/core/init/fs.rs:309-341 | a file is readable if and only if all its blocks are; its length is the inode's size and byte `i` is byte `i` mod block size of block `i` / block size, 0 in a hole |
| `Ext2.ReadInodeData` | src/core/init/fs.rs:309-341 | the block loop computes exactly those contents |
| `Ext2Paths.StepAt` | src/core/init/fs.rs:400-437 | every step of a directory walk decreases the remaining bytes, or keeps them and moves past the end of a block |
| `Ext2Paths.FindInodeInDir` | src/core/init/fs.rs:400-437 | finds the inode of the first entry with the name in the specified entry list |
| `Ext2Paths.ListNames` | src/core/init/fs.rs:528-568 | lists the names of the same entries, without the dot entries, or fails on a corrupt directory |
| `Ext2Paths.WalksAgree` | src/core/init/fs.rs:400-568 | a name other than the dot entries is listed if and only if it is found |
| `Ext2Paths.PartsConcat` | src/core/init/fs.rs:574-575 | splitting `a/b` gives the parts of `a` followed by those of `b` |
| `Ext2Paths.PartsTrim` | src/core/init/fs.rs:498-506 | leading and trailing slashes do not matter |
| `Ext2Paths.FileIsInItsDirectory` | src/core/init/fs.rs:496-597 | looking up a path is looking up its last part in the directory of the others |
| `Ext2Paths.FoundNeedsBlocks` | src/core/init/fs.rs:400-437 | nothing is found when the block size is 0, so reading a file never divides by zero |
| `Ext2Paths.ReadPath` | src/core/init/fs.rs:570-597 | for every byte string as image and every path, ends within bounds and returns the contents of the file at that path, or nothing |
| `Ext2Paths.ReadDirPath` | src/core/init/fs.rs:528-568 | for every image and path, ends within bounds and returns the listing of the directory at that path, or nothing |
| `Ext2Paths.ListedAndRead` | src/core/init/fs.rs:400-597 | a name in a listing is the file that reading the path finds, if and only if it is no directory |
| `Ext2Format.SuperblockIsRead` | src/core/init/fs.rs:186-208 | the superblock is read from the places of the ext2 format: magic, block size as a power of two, inode size, inodes per group |
| `Ext2Format.InodeIsRead` | src/core/init/fs.rs:210-245 | inode g * inodesPerGroup + i + 1 is record i of the table that descriptor g names, with mode, size and the fifteen block pointers at their places |
| `Ext2Format.BlockIsFound` | src/core/init/fs.rs:260-307 | logical blocks are the twelve direct ones, those listed by the thirteenth pointer, and those listed by the blocks that the fourteenth lists |
| `Ext2Format.ContentIsRead` | src/core/init/fs.rs:309-341 | reading a file gives the contents that its blocks hold, cut to its size, holes as zeros |
| `Ext2Format.DirectoryIsListed` | src/core/init/fs.rs:400-568 | walking a directory of any number of blocks lists exactly the records in use, in order |
| `Ext2Format.JoinedSplits` | src/core/init/fs.rs:574-575 | splitting a path gives the parts it was joined from |
| `Ext2Format.ReadStored` | src/core/init/fs.rs:570-597 | in any image that holds, in the ext2 format, a file under /a/b/c, reading that path gives the contents of the file, for any depth, any file size up to the double-indirect limit and any block size |
| `Ext2Format.ListStored` | src/core/init/fs.rs:528-568 | in any image that holds a directory under /a/b/c, listing that path gives its names in order without the dot entries |
| `Tty.ParseAscii` | src/core/syscall/tty.rs:164-173 | the value of a string of digits, saturated at 65535; nothing for other bytes |
| `Tty.PushAscii` | src/core/syscall/tty.rs:134-147 | appends the decimal digits of a number |
| `Tty.DecimalValue` | src/core/syscall/tty.rs:134-173 | reading the digits back gives the number |
| `Tty.DecimalDigit` | src/core/syscall/tty.rs:134-147 | digit `i` from the right is the number over the `i`-th power of ten modulo ten, with no leading zero |
| `Tty.CsiParams` | src/core/syscall/tty.rs:175-202 | the single pass gives the private marker and the first eight numbers among the pieces between semicolons |
| `Tty.StepKeeps` | src/core/syscall/tty.rs:221-393 | after every single byte the cursor is on the screen and the sequence within its buffer |
| `Tty.OutputSplits` | src/core/syscall/tty.rs:314-393 | writing `a + b` reaches the state and the replies of writing `a` and then `b` |
| `Tty.AlwaysInBounds` | src/core/syscall/tty.rs:149-393 | after any run of writes and window changes the cursor is on the screen |
| `Tty.TabGoesToStop` | src/core/syscall/tty.rs:370-374 | up to column 65528 a tab goes to the next stop, 1 modulo 8 |
| `Tty.TabOverflow` | src/core/syscall/tty.rs:370-374 | the 16-bit tab arithmetic overflows for some column of a window if and only if it has 65529 columns or more |
| `Tty.RowMovesCancel` | src/core/syscall/tty.rs:227-237 | moving up and down again, or down and up again, restores the cursor if and only if the first move was not cut short at an edge or the cursor was at the opposite one |
| `Tty.ColumnMovesCancel` | src/core/syscall/tty.rs:238-248 | the same for moves to the right and to the left |
| `Tty.TwoParams` | src/core/syscall/tty.rs:175-202 | `r;c` parses to the two numbers |
| `Tty.PositionReported` | src/core/syscall/tty.rs:221-312 | asking for the position after setting it answers the position set, clipped to the window |
| `Tty.Terminal.ClampCursor` | src/core/syscall/tty.rs:149-162 | clips the cursor to the window |
| `Tty.Terminal.SetWinsize` | src/core/syscall/tty.rs:650-673 | takes over the sizes that are not 0 and clips the cursor to the new window |
| `Tty.Terminal.InSequence` | src/core/syscall/tty.rs:221-345 | collecting, finishing and abandoning a control sequence, with its cursor movement and reply |
| `Tty.Terminal.ProcessOutput` | src/core/syscall/tty.rs:314-393 | the byte loop on the fields computes the specified fold, state and replies; the laws below say what that is for each kind of byte |
| `TtyLaws.OutputIsFeed` | src/core/syscall/tty.rs:314-393 | on a screen in order the final clamp of a call changes nothing |
| `TtyLaws.TextMoves` | src/core/syscall/tty.rs:375-384 | n printable bytes move the cursor from column c to (c - 1 + n) mod cols + 1, with one row down for each wrap as far as the last row |
| `TtyLaws.TextAdvances` | src/core/syscall/tty.rs:375-384 | counting cells row by row, text advances the cursor by one cell a byte as far as the screen reaches |
| `TtyLaws.LastCellWraps` | src/core/syscall/tty.rs:375-384 | on the last cell the cursor goes to column 1 of the same row |
| `TtyLaws.TextIsReported` | src/core/syscall/tty.rs:221-384 | asking for the position after any text answers the row and column that the text led to, in decimal |
| `TtyLaws.CarriageReturn` | src/core/syscall/tty.rs:359 | a carriage return goes to column 1 |
| `TtyLaws.LineFeed` | src/core/syscall/tty.rs:360-364 | a line feed goes down one row unless on the last |
| `TtyLaws.Backspace` | src/core/syscall/tty.rs:365-369 | a backspace goes left one column unless in the first |
| `TtyLaws.Tabulator` | src/core/syscall/tty.rs:370-374 | a tab goes to the next column of the form 8k + 1, or to the last column |
| `TtyLaws.Ignored` | src/core/syscall/tty.rs:357-386 | all other bytes leave the screen alone |
| `TtyLaws.CursorUp` | src/core/syscall/tty.rs:227-233 | `CSI n A` goes up n rows, or to the first; 0 and no number stand for 1 |
| `TtyLaws.CursorDown` | src/core/syscall/tty.rs:234-237 | `CSI n B` goes down n rows, or to the last |
| `TtyLaws.CursorRight` | src/core/syscall/tty.rs:238-241 | `CSI n C` goes right n columns, or to the last |
| `TtyLaws.CursorLeft` | src/core/syscall/tty.rs:242-248 | `CSI n D` goes left n columns, or to the first |
| `TtyLaws.ToColumn` | src/core/syscall/tty.rs:254-257 | `CSI n G` goes to column n, or to the last |
| `TtyLaws.ToRow` | src/core/syscall/tty.rs:258-261 | `CSI n d` goes to row n, or to the last |
| `TtyLaws.ToPlace` | src/core/syscall/tty.rs:249-253 | `CSI r ; c H` and `CSI r ; c f` go to row r and column c, as far as the window reaches |
| `TtyLaws.ClearScreen` | src/core/syscall/tty.rs:262-268 | `CSI 2 J` goes home, and other clears do not move the cursor |
| `TtyLaws.OtherSequence` | src/core/syscall/tty.rs:310-312 | sequences with other final bytes have no effect |
| `TtyLaws.EscapeSwallows` | src/core/syscall/tty.rs:347-355 | an escape not followed by a bracket swallows the next byte |
| `TtyLaws.SequenceAbandoned` | src/core/syscall/tty.rs:323-345 | a byte that cannot be in a sequence, or one parameter byte too many, ends it without effect |
| `TtyLaws.StatusIsReported` | src/core/syscall/tty.rs:269-278 | `CSI 5 n` answers `CSI 0 n` |
| `TtyLaws.AttributesAreReported` | src/core/syscall/tty.rs:291-298 | `CSI c` answers `CSI ? 1 ; 2 c` |
| `TtyLaws.SecondaryAttributesAreReported` | src/core/syscall/tty.rs:291-298 | `CSI > c` answers `CSI > 0 ; 136 ; 0 c` |
| `TtyLaws.ModeIsReported` | src/core/syscall/tty.rs:299-309 | `CSI ? n $ p` answers that mode n is unknown |
| `Futex.WakeExact` | src/core/syscall/process.rs:819-854 | a wake removes exactly the smaller of its limit and the waiters on its address, and leaves every other address alone |
| `Futex.WakeRemoves` | src/core/syscall/process.rs:819-854 | the threads woken are exactly those whose entries were removed |
| `Futex.ExpireExact` | src/core/syscall/process.rs:111-139 | a tick removes exactly the entries whose deadline has passed |
| `Futex.WakeSlots` | src/core/syscall/process.rs:819-854 | those woken are the first n waiters on the address in the order of the slots, and every other slot stays |
| `Futex.ExpireSlots` | src/core/syscall/process.rs:111-139 | a tick empties exactly the slots with a deadline that has come |
| `Futex.RegisterSlots` | src/core/syscall/process.rs:63-85 | a waiter goes into the first empty slot, and is refused exactly if its thread waits already or no slot is empty |
| `Futex.UnregisterSlots` | src/core/syscall/process.rs:95-104 | the thread's entry is taken out and no other |
| `Futex.Table.RegisterWaiter` | src/core/syscall/process.rs:63-85 | takes the first free slot unless the thread has one or none is free |
| `Futex.Table.RemoveByTid` | src/core/syscall/process.rs:95-104 | removes the thread's entry if there is one |
| `Futex.Table.WaiterExists` | src/core/syscall/process.rs:87-93 | whether the thread waits on the address |
| `Futex.Table.WakeDue` | src/core/syscall/process.rs:111-139 | the scan computes the specified expiry and flags exactly those threads as late |
| `Futex.Table.WakeOn` | src/core/syscall/process.rs:819-854 | the scan computes the specified wake and clears the flags of those threads |
| `Futex.Table.BeginWait` | src/core/syscall/process.rs:741-766 | faults exactly for a null or invalid address or a word that cannot be read, queues the thread exactly if the word has the expected value and a slot can be had, and otherwise asks to try again; the late flag is cleared once the address was accepted |
| `Futex.Table.LookOnce` | src/core/syscall/process.rs:775-817 | one look of the waiting thread, with its answer |
| `Futex.PollExact` | src/core/syscall/process.rs:775-817 | in any reachable state a look answers success exactly if the wait was woken or cleared, and a timeout only after its own deadline |
| `Futex.StepKeeps` | src/core/syscall/process.rs:63-857 | every step keeps one entry per thread and the flags in line with the fate of each wait |
| `Futex.FutexSafety` | src/core/syscall/process.rs:63-857 | over any run of waits, wakes, ticks and clears no thread has two entries, a timeout means the deadline of that wait has passed, and success means its entry was removed by a wake or a clear |
| `FdTables.CopyBalanced` | src/core/task/fd_table.rs:72-80 | cloning a live handle keeps each counter equal to the number of live handles |
| `FdTables.DropBalanced` | src/core/task/fd_table.rs:83-96 | dropping one keeps it, and issues the close exactly when it was the last |
| `FdTables.ForkKeeps` | src/core/task/fd_table.rs:216-239 | cloning a whole table keeps it |
| `FdTables.StepKeeps` | src/core/task/fd_table.rs:71-239 | every operation of any process keeps it |
| `FdTables.HandleSafety` | src/core/task/fd_table.rs:71-239 | over any run across any number of processes, including handles made and thrown away before they are installed, each counter equals its live handles, and each remote handle has been closed exactly once if none is left and not at all otherwise |
| `FdTables.FullTableUndoesDup` | src/core/syscall/fs.rs:1241-1285 | duplicating into a full table leaves counters and closes as they were |
| `FdTables.Counters.CloneRemoteRefs` | src/core/task/fd_table.rs:72-80 | the count behind the handle goes up by one |
| `FdTables.Counters.DropHandle` | src/core/task/fd_table.rs:83-96 | the count goes down by one and the close is issued at zero |
| `FdTables.FdTable.AllocFd` | src/core/task/fd_table.rs:125-140 | puts the handle at the lowest free descriptor with its close-on-exec flag and changes no other slot; without a free one nothing is installed and the handle is dropped |
| `FdTables.FdTable.CloseFd` | src/core/task/fd_table.rs:168-184 | clears exactly that entry and its flag and drops the handle; false exactly for a descriptor that is not open |
| `FdTables.FdTable.CloseCloexecFds` | src/core/task/fd_table.rs:187-198 | afterwards a descriptor is closed if and only if it was, or had bit 0 of its flag set; the others keep entry and flags |
| `FdTables.FdTable.CloseEverything` | src/core/task/fd_table.rs:201-211 | every descriptor is closed and its handle dropped |
| `FdTables.FdTable.CloneForFork` | src/core/task/fd_table.rs:216-239 | the child has every open descriptor of the parent with its flags and no other; each counter has gone up by the number of descriptors that share it |
| `FdTables.Dup` | src/core/syscall/fs.rs:1241-1285 | the lowest free descriptor gets the handle without flags, no other slot changes, and the handle is counted once more; an error for a bad descriptor or a full table changes no slot |
| `FdTables.Dup2` | src/core/syscall/fs.rs:1289-1351 | the target gets the handle without flags after what was there is closed, and no other slot changes; a valid descriptor onto itself changes nothing |
| `InitialStack.PaddingRounds` | src/core/syscall/exec.rs:351-361 | the padding rounds to 16 bytes and never decides whether the data fits the page |
| `InitialStack.LaidOut` | src/core/syscall/exec.rs:310-414 | in a page laid out as planned the words and strings can be read where the pointers say |
| `InitialStack.StartIsDecoded` | src/core/syscall/exec.rs:310-414 | decoding words and strings stored as planned yields argc, the strings, the terminators and the auxiliary vector |
| `InitialStack.AuxiliaryBytes` | src/core/syscall/exec.rs:336-365 | AT_RANDOM and AT_EXECFN point at their own bytes |
| `InitialStack.PlanIsSound` | src/core/syscall/exec.rs:363-366 | the planned addresses are not null and fit 64 bits |
| `InitialStack.Build` | src/core/syscall/exec.rs:310-414 | fails exactly when the unpadded data exceeds 4096 bytes; otherwise the page, decoded from the stack pointer by section 3.4.1 of the System V AMD64 psABI, yields argc, every argument and environment string, both null terminators and the auxiliary vector up to its end, with AT_RANDOM and AT_EXECFN pointing at their bytes; the stack pointer is a multiple of 16 within the page |
| `Cext.ParseCext` | src/core/kmod/mod.rs:134-169 | the cursor loop computes the specified parse for every byte string, failing within bounds |
| `Cext.BuildCext` | builders/modules.rs:125-167 | refuses exactly names and metadata too long for their fields, and otherwise writes the specified file, with each field, name, dependency and the image at its place byte by byte |
| `Cext.ParseUndoesBuild` | builders/modules.rs:125-167 | parsing what was built gives the module back if and only if it has fewer than 65536 dependencies; with more, parsing fails |
| `Cext.BuildUndoesParse` | src/core/kmod/mod.rs:134-218 | re-encoding any successful parse reproduces the accepted prefix except the eight reserved bytes |
| `Signal.StepKeeps` | src/core/syscall/signal.rs:34-146 | every operation keeps SIGKILL and SIGSTOP unmasked and without a handler |
| `Signal.RunKeeps` | src/core/syscall/signal.rs:34-146 | so does every run |
| `Signal.Uncatchable` | src/core/task/signal.rs:98-140 | over any run of sigaction, sigprocmask, sends, deliveries and returns they are never masked and never gain a handler, and a pending SIGKILL is always deliverable before any higher signal |
| `Signal.SignalState.SetPending` | src/core/task/signal.rs:108-112 | exactly a signal in range is added to those pending |
| `Signal.SignalState.TakeNextDeliverable` | src/core/task/signal.rs:115-123 | takes the lowest pending signal that is not masked, and none only if there is none |
| `Signal.SignalState.RtSigaction` | src/core/syscall/signal.rs:34-99 | invalid exactly for a signal out of range or a new action for SIGKILL or SIGSTOP; a fault exactly when the old action cannot be written or the new one not read; the old action is told when asked for, even if the new one then faults; the action changes only when all succeeds |
| `Signal.SignalState.RtSigprocmask` | src/core/syscall/signal.rs:107-145 | a fault exactly when the old mask cannot be written or the new one not read; the old mask is told when asked for; otherwise signal by signal the mask is the union, the difference or the new set, SIGKILL and SIGSTOP left out of the change |
| `Signal.FrameBelow` | src/core/syscall/signal.rs:416-422 | the frame lies wholly below the old stack pointer, at the highest place that leaves 40 bytes and lets the handler be entered at 8 modulo 16 (section 3.2.2 of the System V AMD64 psABI) |
| `Signal.SetupSignalFrame` | src/core/syscall/signal.rs:401-465 | succeeds exactly if the frame can be written; then it holds restorer, RIP, RSP and RFLAGS, other user bytes are untouched and only RDI, RIP and RSP change |
| `Signal.RtSigreturn` | src/core/syscall/signal.rs:467-507 | succeeds exactly if the saved words can be read, and then loads RIP, RSP and RFLAGS from them |
| `Signal.ReturnRestores` | src/core/syscall/signal.rs:401-507 | if the frame is untouched and the handler has returned once, the return restores RIP, RSP and RFLAGS from before the delivery |
| `Signal.SignalAndReturn` | src/core/syscall/signal.rs:350-395 | on the way out of any system call: return from a handler, nothing, or the delivery of exactly the next signal with the outcome its action calls for |
| `Signal.UncatchableDelivered` | src/core/task/signal.rs:39-60 | delivering SIGKILL always ends the process and delivering SIGSTOP never redirects it |

## Left out

- PageTables.TranslateIsWalk: a large page whose last byte lies past 2^52 translates; the address type of the x86_64 crate panics there.
- Segments.MapAndCopySegment: the temporary kernel mapping of the root table is direct access to it; that the code leaves it mapped on some errors is not captured.
- Segments.MapAndCopySegment: requires upper entries on the touched paths to be empty or plain tables, level-1 entries empty or present, user frames not shared between pages and inside the direct map, and at most 2^36 pages, because the code follows entries without checking them.
- Segments.EnsureTable: requires the entry to be empty or a plain table, because the code would take a large page for a table or hang a table over it.
- Segments.EnsureHierarchy: requires the same of every upper entry on the path.
- Mapping.UnmapPage: requires that the page is not part of a large page, because the code does not check for one.
- Mapping.MapPage: the offset of the direct map is known; the error of a kernel that has none yet is not modelled.
- Mapping.MapPage: requires a canonical address and a physical address below 2^52, because the address types of the x86_64 crate panic on others.
- SharedPages.AllocSharedPages: requires an empty target range in one canonical half, a non-zero page-aligned direct map that covers the usable frames, and a hint whose range does not wrap.
- SharedPages.AllocSharedPages: intermediate tables made before a failure stay in the page table, as in the code.
- Loader.LoadProgram: header validation and the load bias are inputs; the sum of a header's offset and its size is computed without wrapping; relocations, TLS and the stack are not modelled.
- Loader.KernelPageUnmasked: states the effect of a load that succeeds; that the concrete table can be loaded with enough frames is not stated.
- Lifetimes.LoadThenDestroy: requires a direct map that is not at 0, no table or page in frame 0, and segments that end within user space; teardown visits only the user half of the root.
- Loader.LoadProgram: requires that segments stay within the 48-bit space and meet the conditions for mapping a segment.
- Tty.OutputSplits: 16-bit tab arithmetic wraps, as in a build without overflow checks; `Tty.TabOverflow` says exactly when this happens.
- Tty.Terminal.ProcessOutput: the replies are returned; the input queue they are pushed to is not modelled.
- Ext2Format.ReadStored: describes files without the triple-indirect pointer, which the code does not follow, and directories of whole blocks filled with records.
- Ext2Paths.ReadPath: whether bytes form a valid name is an arbitrary test, standing for the UTF-8 check.
- Cext.ParseCext: the same test stands for the UTF-8 check of names.
- Futex.FutexSafety: each wake call and each tick is one step, and sleeping and waking of threads are abstract; nothing is claimed about lost wakeups.
- Mailboxes.ChannelFifo: assumes that no other receiver and no selection of another sender takes messages in between; what a selection does to other senders is stated by `Mailboxes.OtherSendersOrder`.
- Mailboxes.Mailbox.Quarantine: its effect is modelled, and it is proved never to be reached from well-formed states.
- FdTables.HandleSafety: handles on remote files are created with a counter; the extra close that `open` issues for a full table and the counts of pipe ends are not modelled.
- InitialStack.Build: random bytes and auxiliary values are inputs, the stack ends on a page boundary, and the vector is decoded up to its null entry.
- Signal.RtSigreturn: the signal mask from before the delivery is not restored, because the code clears it.
- Signal.SetupSignalFrame: user memory is a map of bytes with a set of writable addresses.
- `map_phys_pages_into_target` in `src/core/syscall/privileged.rs`: the same mapping and rollback steps towards another process.
- `clone_user_page_table`, `protect_user_range_in_table`, `unmap_range_in_table`, `create_user_page_table`: they rest on the external x86_64 crate or on the bootloader's tables.
- Sending and receiving IPC from user space, blocking receives, and page mapping for receivers: they add scheduling around the mailbox modelled here.
- The scheduler, thread queues, interrupt and descriptor tables, drivers and port I/O: hardware effects.
- The file system service and its protocol, pipes, the UEFI loader, build scripts other than the container layout, and user-side libraries.
