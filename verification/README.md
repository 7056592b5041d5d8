# TylyOS kernel: a verified model

This project models the state machines of the TylyOS kernel and of its image builder, and proves what each of
them keeps over all operations and runs. It follows the C and C++ code branch by branch, with 32-bit arithmetic
where the code depends on it. `kernelPanic` never returns (kernel/kernel/kernel.c:321-323), so it is a boolean outcome
named `panic`, and nothing is promised about the state behind it unless the contract says so.

The modules, by the code that they follow:

- `Machine`, `Finite`: bytes, words and their little-endian form; counting in finite sets.
- `CStrings`, `RamFs`, `RamFsBuilder`, `RamFsReader`, `RamFsRoundTrip`: the path lexer, the FAT image, the program
  that writes it, the driver that reads it, and the two together.
- `Heap`: `kmalloc` and `kfree` with the headers stored in the memory that they manage.
- `Pages`, `Tasks`, `PageTables`, `AddressSpaces`, `Dispatcher`, `VirtualCopy`, `TaskMemory`, `ForkTask`: the frame
  bitmap, page lists, page table, the dispatcher's switch, `memcpyToTask`, `allocMemory`, `fork` and `kill`.
- `Scheduler`, `Fairness`: the choice of the next task, and bounded bypass over runs.
- `FileTable`, `FileLaws`, `Descriptors`, `Pipes`, `FileAccess`: the table of open nodes as a value and as the kernel's
  array, what each operation does to every descriptor, the ring buffer, and opening and reading through descriptors.
- `Syscalls`: fork, kill and exit on memory, descriptors and scheduler together.
- `ArgParser`: `argc` and `argv`. `Memcpy`, `HeapCopy`: the kernel's `memcpy`, and what it does between blocks of the heap.

Code that changes state is a class or a method with loops, and each method is proved against a function of the old state
(`Insert`, `AddPage`, `Switched`, `Written`, `AllocList`, `Close`, `Woken` and `Best`, ...). The promises of the design are
lemmas about these functions and invariants that the methods keep. What an operation is for is also stated without its
function, in the terms of its caller: `Leads` for the host's tree, `PutIntoList` and whole pages for the heap, `OnlyNew` and
`ClosedOne` for descriptors, `AllFit` for pipes, `Elected` for the scheduler, `Shows` for the page table, `Spans` for memory.

## Where the code and its intent part

The code is kept as it is. Where that breaks a promise, a lemma or contract says exactly when the promise holds:

- A page list loses the successor of a page that is inserted in the middle: `Pages.AddsIff`. Ascending requests never
  get there: `TaskMemory.AscendingRanges`. The lost frame stays marked; it is counted in `leaked`.
- Removing the first task drops the whole list: `Tasks.DropsNothingIff`, `HeadDropsTheRest`.
- A `kmalloc` into the empty list does not grow the heap, and the size tests are 32-bit sums: `Heap.Fits`,
  `FirstRequestOverruns`.
- The reader and the writer disagree on how many records a directory holds for some cluster sizes: `AgreeIff`,
  `ReadBackIff` and `FullDirectory`, `SlotsDiffer` (1024, the size that fsMaker/Makefile uses, and 6400), `LimitSeen` and
  `LimitHides`.
- A seek or a read whose 32-bit sum wraps: `SeekClamps`, `SeekWraps`, and the `panic` clause of `InodeInfo.ReadFile`.
- A pipe write that runs out of room in the middle counts one byte that it did not take; a pipe read that runs out of
  bytes puts one more byte into the caller's buffer: `Pipe.Write`, `Pipe.Read`.
- A regular file's structure is shared by fork and freed by the first close: `FileTable.CloseDangles`. The next close
  of it panics, in close, dup, exit and kill: `CloseAllPanicsIff`, `SharedFileIsFreedTwice`.
- A new pipe at the address of such a freed structure counts the descriptors left with it as partners:
  `FileTable.PipedKeeps`, `Reachable`.
- `copyNodeDescriptor` does not test for a full table: the `overrun` result.
- Moving a descriptor onto a key that is taken breaks uniqueness: `MovedUniqueIff`. Renaming a descriptor to its own id, or
  over the only partner on its pipe, closes it: `RenamedLeads`.
- After exit and exec, pages of the old program can stay mapped: `PageTables.SwitchAgreesIff`, `ExitLeavesPages`,
  and for the whole system call `Syscalls.Exit`.
- `argc` counts quotes from the start of the line, the layout from its first space: `ArgParser.SlotsIff`. Empty arguments
  have no terminator: `EmptyArgument`.
- The upward branch of `memcpy` runs upwards, copies one byte more, and nothing from 2^31 bytes on: `Memcpy.UpwardsIff`,
  `HugeIff`, `AdjacentOverwrites`. In the heap the extra byte can hit the size in the next block's header:
  `HeapCopy.CopyKeepsList`.
- A ready task whose last dispatch is at 0xFFFFFFFF is never chosen: the bound `NEVER` in `Scheduler`.

## Model

| member | source | states |
|---|---|---|
| `RamFsRoundTrip.Build` | fsMaker/main.cpp:157-275 | the builder accepts a host tree exactly when every directory fits into one cluster and the clusters suffice; then the image holds the tree and the clusters in use are the root and exactly those of the tree's nodes |
| `RamFsRoundTrip.Fetch` | kernel/fs/ramFs/ramFs.c:143-273 | opening any path in an image that holds a tree and reading to the end gives exactly what the path names in the tree, byte for byte, or nothing |
| `RamFsRoundTrip.RoundTrip` | kernel/fs/ramFs/ramFs.c:32-69 | when directories are within the reader's limit, every path that leads to a node gives that node and every other path gives nothing |
| `RamFsRoundTrip.AcceptedWithin` | fsMaker/main.cpp:105-105 | if writer and reader count the same number of records at a cluster size, or no image of that size has clusters for one node more than the reader looks at, every accepted tree is within the reader's limit, at all depths |
| `RamFsRoundTrip.AgreeIff` | kernel/fs/ramFs/ramFs.c:43-43 | that condition on the cluster size holds if and only if every tree that some image accepts is within the reader's limit |
| `RamFsRoundTrip.FullDirectory` | fsMaker/main.cpp:105-105 | at every other cluster size there is an image that accepts a directory with one file more than the reader looks at, with names as a host has them, and the last file is not found by its path |
| `RamFsRoundTrip.ReadBackIff` | kernel/fs/ramFs/ramFs.c:32-69 | every file and every directory of every host tree that an image accepts, below directories that are not called ".", ".." or ".svn", is given, byte for byte, by a path that leads to it on the host, if and only if the cluster size meets that condition |
| `RamFsRoundTrip.PathNames` | kernel/fs/ramFs/ramFs.c:143-206 | a path that is made of names without separators, whatever stands before its first slash, is split into these names again |
| `RamFsRoundTrip.EveryNode` | kernel/fs/ramFs/ramFs.c:143-273 | at such a cluster size every node of an accepted host tree, below directories other than those three, has a path, and the path is expected to give the node, byte for byte |
| `RamFsRoundTrip.BuildAndFetch` | fsMaker/main.cpp:236-275 | at such a cluster size a tree is built, the image is loaded and a path is fetched: if the path leads through the host's own directories, without those three, to a file, the result is the file's bytes, and nothing exactly if it leads to no node |
| `RamFsRoundTrip.KeptOrder` | fsMaker/main.cpp:175-226 | of a directory's nodes the image holds files and directories that are not called ".", ".." or ".svn", in their order, and no others |
| `RamFsRoundTrip.KeptIff` | fsMaker/main.cpp:205-205 | a node is in the image's tree if and only if it comes from such a node of the host's |
| `RamFsRoundTrip.LeadsKept` | fsMaker/main.cpp:157-233 | at all depths: names that lead to a node on the host, by such directories, lead to it in the image's tree |
| `RamFsRoundTrip.KeptLeads` | fsMaker/main.cpp:157-233 | and names that lead to a node in the image's tree come from the host |
| `RamFsRoundTrip.ReadToEnd` | kernel/fs/ramFs/ramFs.c:231-273 | a fresh cursor reads the whole file, whatever its size, exact multiples of the cluster size included |
| `RamFsBuilder.Image.GetDir` | fsMaker/main.cpp:157-233 | a directory's nodes, with all below them, are recorded in order on disjoint chains of new clusters; nothing else changes; fails exactly when a directory overflows or clusters run out |
| `RamFsBuilder.Image.WriteFile` | fsMaker/main.cpp:132-155 | a file takes size/clusterSize + 1 clusters, linked from its first one without repetition and ended by END, also when its size is a multiple of the cluster size |
| `RamFsBuilder.Image.GetFreeCluster` | fsMaker/main.cpp:82-98 | the lowest free cluster, marked END; fails exactly when none is free |
| `RamFsBuilder.Image.AddNodeToDirectory` | fsMaker/main.cpp:101-130 | a record is added behind the others, exactly when the cluster has room, and the others read as before |
| `RamFsBuilder.Image.AddFile` | fsMaker/main.cpp:175-202 | a file and its record are added to a directory that keeps what it holds |
| `RamFsBuilder.Image.AddDirectory` | fsMaker/main.cpp:207-226 | a directory, its record and everything below it are added to a directory that keeps what it holds |
| `RamFsBuilder.ChainLength` | fsMaker/main.cpp:140-153 | end of file, which only a read that falls short notices, is met in chunk number size/clusterSize |
| `RamFsBuilder.FileGained` | fsMaker/main.cpp:182-199 | after a file is written and recorded, the directory holds one node more and all earlier ones untouched |
| `RamFsBuilder.DirGained` | fsMaker/main.cpp:211-226 | the same for a directory and everything below it |
| `RamFs.PutEntryReads` | fsMaker/main.cpp:107-120 | a record reads back as it was put, its fields at the offsets of the C struct, and so do all earlier ones |
| `RamFs.HoldsFrame` | fsMaker/main.cpp:157-233 | what a node holds depends on its own clusters only, so later writes elsewhere keep it |
| `RamFs.HeldAreUsed` | fsMaker/main.cpp:90-91 | every cluster of a held node is in range and marked as used |
| `RamFs.StoreView` | fsMaker/main.cpp:145-145 | a store inside one cluster of the flat area changes that cluster and no other |
| `RamFs.NodeAdded` | fsMaker/main.cpp:157-233 | adding a node with clusters of its own keeps nodes apart |
| `RamFsReader.WalkIsLookup` | kernel/fs/ramFs/ramFs.c:143-206 | walking a path through records in clusters finds what a recursive lookup in the tree finds |
| `RamFsReader.LookupReaches` | kernel/fs/ramFs/ramFs.c:71-86 | with all nodes seen, the lookup finds exactly the node that the names lead to |
| `RamFsReader.LimitSeen` | kernel/fs/ramFs/ramFs.c:43-43 | directories within the limit are seen whole |
| `RamFsReader.LimitHides` | kernel/fs/ramFs/ramFs.c:43-67 | a tree with a directory over the limit has a path that leads to a node and is not found |
| `RamFsReader.SlotsAgree` | kernel/fs/ramFs/ramFs.c:43-43 | at every cluster size a directory that fits has as many records as the writer counts, and the reader never looks at more |
| `RamFsReader.SlotsDiffer` | kernel/fs/ramFs/ramFs.c:43-43 | both count 6 records at 1024 bytes per cluster; at 6400 bytes the writer counts 41 and the reader 40 |
| `RamFsReader.GetNodeFromName` | kernel/fs/ramFs/ramFs.c:71-86 | the first record with the name, among those that the reader sees |
| `RamFsReader.GetCluster` | kernel/fs/ramFs/ramFs.c:88-100 | the i-th cluster of a well-formed chain; the panic is not reached |
| `RamFsReader.CopyChain` | kernel/fs/ramFs/ramFs.c:248-269 | copying along a chain gives the file's bytes from the cursor on; the FAT panic is not reached, because the chain is one cluster longer than a file that fills its clusters |
| `RamFsReader.InodeInfo.ReadFile` | kernel/fs/ramFs/ramFs.c:231-273 | a read returns the slice at the cursor and moves it, never past the end; it panics exactly if position plus count wraps 32 bits |
| `RamFsReader.InodeInfo.Seek` | kernel/fs/ramFs/ramFs.c:280-323 | the new cursor is the one that the mixed signed and unsigned comparisons give, stated for every sum: kept inside the file below 2^31, the beginning from there to 2^32, the wrapped sum beyond; no panic |
| `RamFsReader.GetNodeDescriptor` | kernel/fs/ramFs/ramFs.c:143-206 | the descriptor of a path is that of the node that the walk finds, or none |
| `RamFsReader.SeekClamps` | kernel/fs/ramFs/ramFs.c:294-304 | seek clamps to both ends of the file exactly if the sum stays below 2^31, and where it leads for every sum |
| `RamFsReader.SeekWraps` | kernel/fs/ramFs/ramFs.c:294-304 | in a file of 2^31 bytes a seek by one from the last byte leads to the beginning instead of the end |
| `RamFsReader.ReadTwice` | kernel/fs/ramFs/ramFs.c:231-273 | reading n and then m bytes is reading n + m |
| `RamFsReader.ReadsJoin` | kernel/fs/ramFs/ramFs.c:231-323 | in any run of reads and seeks, consecutive reads join to one slice of the file at the cursor of before: from the start, or from where the last seek led, whatever came earlier |
| `RamFsReader.PerformAll` | kernel/fs/ramFs/ramFs.c:231-323 | such a run on an open file delivers the bytes and the cursor that it stands for, and panics exactly if one of its reads does |
| `CStrings.JoinFields` | kernel/lib/string.c:209-259 | joining all fields of a string by the separator rebuilds it |
| `CStrings.FieldsUnique` | kernel/lib/string.c:209-259 | no other separator-free fields do |
| `CStrings.FieldSpan` | kernel/lib/string.c:241-259 | field i lies between the occurrences i - 1 and i of the separator |
| `CStrings.FindChar` | kernel/lib/string.c:209-223 | the position of occurrence number i, or -1 exactly if there are not that many |
| `CStrings.SubStr` | kernel/lib/string.c:225-239 | the buffer holds the piece, cut to max bytes, with a NUL behind it |
| `CStrings.SplitSelects` | kernel/lib/string.c:241-259 | what split computes from separator positions is the field, the last one by the negative count |
| `CStrings.Split` | kernel/lib/string.c:241-259 | the buffer holds field i, cut; the result is its length, or negative exactly if there is no such field |
| `CStrings.StrCmp` | kernel/lib/string.c:261-266 | zero exactly for equal strings |
| `Heap.KernelHeap.Kmalloc` | kernel/memory/heap.c:34-121 | if and only if the request fits: a block of its size has been put into the header list at the lowest address where it is free, no payload byte of another block changes; the heap grows only if no free place ends inside it, by the least number of whole pages that puts the request inside, a frame for each; a panic means that fewer frames were left; otherwise what it returns ends outside the heap |
| `Heap.GrowthIsLeast` | kernel/memory/heap.c:90-95 | the growth is the least number of pages with the request strictly inside the heap |
| `Heap.RequestIs` | kernel/memory/heap.c:40-102 | a request puts one block into the list, at the lowest address where its size and a header are free |
| `Heap.KernelHeap.Kfree` | kernel/memory/heap.c:123-163 | exactly the block at the pointer leaves the list and all other payloads stay; panics exactly if there is none |
| `Heap.KernelHeap.Grow` | kernel/memory/heap.c:92-95 | the heap grows by whole pages, a frame for each |
| `Heap.RunLaid` | kernel/memory/heap.c:34-163 | over every run of requests and releases that the heap can serve, blocks are address-ordered, pairwise disjoint and inside the heap's bounds of that moment |
| `Heap.PerformAll` | kernel/memory/heap.c:34-163 | such a run on the memory itself leads to the state that it stands for, panics exactly if some step does, and keeps every byte of every block that it does not release |
| `Heap.LowestAddress` | kernel/memory/heap.c:40-121 | no lower address could hold the request |
| `Heap.FreeUndoes` | kernel/kernel/tests.c:102-133 | freeing what a request got restores the list of before |
| `Heap.AskAndGive` | kernel/kernel/tests.c:102-133 | releasing what a request got restores the block list of before, and the heap has only grown as the request needed |
| `Heap.AskAgain` | kernel/kernel/tests.c:113-118 | a request, its release and the same request again give the same pointer, and the state of after the first request |
| `Heap.ReusedIff` | kernel/kernel/tests.c:102-133 | a freed block's address is handed out again for its size exactly if it lay right behind its predecessor and no earlier gap fits |
| `Heap.ThreadIn` | kernel/memory/heap.c:71-102 | writing a header and one link turns the stored list into the list with the block |
| `Heap.ThreadOut` | kernel/memory/heap.c:136-155 | rewriting one link turns it into the list without the block |
| `Heap.GrowthFits` | kernel/memory/heap.c:90-95 | the 32-bit test and page count give enough room exactly under the stated condition |
| `Heap.FirstRequestOverruns` | kernel/memory/heap.c:108-117 | a first request, from a heap of one page, lies inside the heap exactly if it leaves room for its header; 0xFF9 bytes end a byte behind it |
| `Heap.InOrder` | kernel/memory/heap.c:62-84 | earlier blocks end before later ones start, and all lie in the heap |
| `Pages.SetBitExt` | kernel/memory/memory.c:264-274 | one bit is set or cleared and no other bit of the bitmap changes |
| `Pages.AddPageIs` | kernel/memory/memory.c:278-321 | a new page goes to its place, and only the page above it can be lost |
| `Pages.AddPageSorted` | kernel/memory/memory.c:278-321 | the list stays sorted and duplicate-free |
| `Pages.AddsIff` | kernel/memory/memory.c:306-310 | nothing is lost exactly if the page goes to one of the ends |
| `Pages.AddsExactly` | kernel/memory/memory.c:278-321 | the new list and what is lost make up the old list and the new page |
| `Pages.MiddleIsLost` | kernel/memory/memory.c:308-308 | three pages with the middle one put in last are two |
| `Pages.Appends` | kernel/memory/memory.c:315-318 | a page above all others is appended and nothing is lost |
| `Tasks.GetNewProcID` | kernel/task/task.c:340-370 | the endless search ends within as many steps as there are tasks, with the least unused id from 10 on |
| `Tasks.CountAdded` | kernel/memory/memory.c:278-321 | how often a frame is owned after an insertion |
| `Tasks.CountRemoved` | kernel/memory/memory.c:325-363 | how often a frame is owned after a page has left a list |
| `Tasks.CountDropped` | kernel/task/task.c:257-294 | frames of tasks that leave the list are exactly those that go out of reach |
| `Tasks.DropsNothingIff` | kernel/task/task.c:269-275 | removing a task without pages leaks nothing exactly if it is not the first, or no task has pages |
| `Tasks.HeadDropsTheRest` | kernel/task/task.c:269-275 | of two tasks the first, without pages, is removed: the list is empty and the other's page is lost |
| `AddressSpaces.Memory.GetFreePage` | kernel/memory/memory.c:366-377 | the lowest unmarked frame, 0 exactly if all are marked |
| `AddressSpaces.Memory.IncreaseHeapSize` | kernel/memory/heap.c:165-185 | a free frame is mapped behind the heap; every marked frame keeps exactly one owner |
| `AddressSpaces.Memory.GrowHeap` | kernel/memory/heap.c:92-95 | the same for any number of pages |
| `AddressSpaces.Memory.AddPaginaToTaskPageList` | kernel/memory/memory.c:278-321 | the list walk inserts as the specification function says |
| `AddressSpaces.Memory.AllocaNuovaPagina` | kernel/task/task.c:375-399 | the task has the page afterwards, the one it had or one with a frame that was free; ownership stays unique |
| `AddressSpaces.Memory.DeallocaPagina` | kernel/task/task.c:402-435 | the page's frame is free again and nothing else changes; panics exactly if there is no such page |
| `AddressSpaces.Memory.FreeTaskPages` | kernel/task/task.c:523-532 | the loop ends, and exactly the frames of the task's pages have become free |
| `AddressSpaces.Memory.RemoveTask` | kernel/task/task.c:257-294 | the first task with the id leaves the list, and if it is the head, all do; their frames are accounted for as leaked |
| `AddressSpaces.Memory.Kill` | kernel/task/task.c:516-521 | nothing is left under the id and its frames are free |
| `AddressSpaces.Memory.DroppedConserved` | kernel/task/task.c:257-294 | removing a task keeps one owner for every marked frame and none for the others |
| `AddressSpaces.Memory.AddedConserved` | kernel/task/task.c:388-396 | so does adding a page with a free frame |
| `AddressSpaces.Memory.RemovedConserved` | kernel/task/task.c:422-433 | so does removing a page and clearing its bit |
| `AddressSpaces.Memory.HeapConserved` | kernel/memory/heap.c:168-173 | so does giving a frame to the heap |
| `AddressSpaces.Memory.HeapFits` | kernel/memory/heap.c:165-185 | the heap never has more pages than there are frames |
| `TaskMemory.NoSharing` | kernel/task/task.c:375-399 | no two pages, of one task or of two, have the same frame, and none has a frame of the heap |
| `PageTables.SwitchedAt` | kernel/task/dispatcher.c:88-113 | every user entry after a change of task |
| `PageTables.SwitchedOutside` | kernel/task/dispatcher.c:88-113 | entries outside the user area, the heap's among them, do not change |
| `PageTables.SwitchAgreesIff` | kernel/task/dispatcher.c:88-113 | after the change the user entries are exactly the new task's pages if and only if every page that was mapped is on the old or the new list |
| `PageTables.RunAgrees` | kernel/task/dispatcher.c:58-84 | along any run of changes the table has exactly the last task's pages, and all other entries are those of the beginning |
| `PageTables.ExitLeavesPages` | kernel/task/syscallHandler.c:32-36 | after exit a page of the exited task stays mapped if the next task has none there |
| `Dispatcher.MapPages` | kernel/task/dispatcher.c:88-113 | the two loops leave, for each page of the task, an entry that is its frame's address plus 7 (present, writable, user), nothing for pages that only the running task had, and every other entry as it was |
| `Dispatcher.Dispatch` | kernel/task/dispatcher.c:58-84 | the task is running, its dispatch time is now, the table shows its pages in this way, and agreement of table and running task is kept; panics exactly if there is no such task |
| `VirtualCopy.CopyRefines` | kernel/task/task.c:476-514 | each byte of the destination, as the task sees it, is the source's; its other bytes and all memory outside its frames are as before |
| `VirtualCopy.MemcpyToTask` | kernel/task/task.c:476-514 | the page-wise copy through the temporary page is the byte-by-byte write, for any alignment and length; only the temporary page's entry changes |
| `VirtualCopy.PhysInjective` | kernel/task/task.c:492-503 | different addresses of a task are different bytes of memory |
| `VirtualCopy.TaskFrames` | kernel/task/task.c:498-498 | a task's frames are distinct, aligned and inside memory |
| `TaskMemory.AddTask` | kernel/task/task.c:153-254 | a task without pages and with a new id is appended; ownership of frames is kept |
| `TaskMemory.AllocMemory` | kernel/task/task.c:461-473 | every address of the range, the one behind its end included, lies in a page of the task's list afterwards, and no page outside the range has been added; the list is what requests in ascending order make of it |
| `TaskMemory.AllocLaw` | kernel/task/task.c:461-473 | every page of the range is there, nothing changes if all were there, and a frame is lost exactly if some missing page is neither above the whole list nor the first of the range and below it; otherwise the old list is kept as a whole |
| `TaskMemory.AscendingRanges` | kernel/task/elf.h:152-157 | from an empty list, ranges with ascending bases never lose a page |
| `ForkTask.Fork` | kernel/task/task.c:535-553 | the child is the parent but for its id and its pages, which are copies in frames that were free; the parent and all other memory are unchanged, and no frame is lost |
| `ForkTask.ForkedView` | kernel/task/task.c:548-553 | at every address the child reads what the parent had, and so does the parent, from different frames |
| `ForkTask.CopyFrame` | kernel/task/task.c:551-551 | a mapped page of the parent is copied into the child's frame and nothing else changes |
| `ForkTask.CopiesOne` | kernel/task/task.c:548-553 | one more page copied keeps all earlier copies |
| `ForkTask.WrittenPage` | kernel/task/task.c:489-513 | a virtual write from a page's beginning is a store into its frame |
| `Syscalls.Fork` | kernel/task/task.c:535-563 | memory and descriptors of the child of the running task, together: for each descriptor of the parent the child has one on the same structure and no other; every descriptor still belongs to a listed task; the descriptor array is overrun exactly if the copies have no room |
| `Syscalls.Kill` | kernel/task/task.c:516-521 | panics exactly if a file of the task has a structure that was freed already or shares one with another of its files; otherwise no task, no frame and no descriptor is left under the id, and of other tasks' descriptors only those go that were left alone on a pipe |
| `Syscalls.Exit` | kernel/task/syscallHandler.c:32-37 | a panic in the cases of kill; otherwise, after the forced schedule, no descriptor is left and the choice among the remaining tasks runs; the table agrees with the next task if and only if that one has a page wherever the exited task had one; exit of the first task in the list ends in a panic |
| `FileTable.Reachable` | kernel/fs/fs.c:95-475 | over every run from the empty table, keys stay unique and every live pipe keeps at least two descriptors, all of its kind, if and only if no new pipe gets an address that a descriptor was left with and nothing is moved onto another descriptor's key |
| `FileTable.CloseKeeps` | kernel/fs/fs.c:133-184 | closing keeps that, whoever closes what |
| `FileTable.PipeFreedIff` | kernel/fs/fs.c:158-182 | a pipe is freed exactly by the close of one of its last two descriptors, and then no descriptor leads to it |
| `FileTable.LastPartner` | kernel/fs/fs.c:158-182 | another descriptor is closed along exactly if it is the only partner on the same pipe: then its reader sees -1 |
| `FileTable.CloseDangles` | kernel/fs/fs.c:154-157 | a close leaves no descriptor with a freed structure if and only if it is a pipe's or nobody shares the file's structure |
| `FileTable.CloseAllPanicsIff` | kernel/fs/fs.c:443-460 | closing all of a task's descriptors frees no structure twice if and only if no file of it has a freed structure and no two of its files share one |
| `FileTable.SharedFileIsFreedTwice` | kernel/fs/fs.c:154-157 | a file is opened, its task forks and closes it: the child's close, and the close of all its descriptors, then free the structure a second time |
| `FileTable.ForkedIds` | kernel/fs/fs.c:415-441 | the child has exactly the parent's ids, leading to the same structures, and the parent keeps its own |
| `FileTable.ForkedKeeps` | kernel/task/task.c:555-561 | fork keeps keys unique and pipes owned |
| `FileTable.PipedKeeps` | kernel/fs/fs.c:186-239 | a new pipe keeps that exactly if no descriptor is left with its address |
| `FileTable.OpenedKeeps` | kernel/fs/fs.c:95-131 | so does an opened file |
| `FileTable.RenamedKeeps` | kernel/fs/fs.c:463-475 | so does a rename, without any condition |
| `FileTable.RenamedLeads` | kernel/fs/fs.c:463-475 | the new id leads where the old one did, unless they are equal or the new id was the old one's only partner |
| `FileTable.MovedUniqueIff` | kernel/fs/fs.c:396-413 | a move keeps keys unique exactly if the new key is not another descriptor's |
| `FileTable.MovedKeeps` | kernel/fs/fs.c:396-413 | a move to an unused key keeps pipes owned |
| `FileTable.CloseAllKeeps` | kernel/fs/fs.c:443-460 | closing all of a task's descriptors ends with none of it left and keeps the invariant |
| `FileLaws.Appended` | kernel/fs/fs.c:126-128 | a node stored behind the others is what its key leads to, and every other key leads where it led |
| `FileLaws.CloseIs` | kernel/fs/fs.c:133-184 | a close takes away the descriptor, and the only other one on its pipe, and leaves every other descriptor |
| `FileLaws.CloseFrees` | kernel/fs/fs.c:154-182 | a file's structure is freed at once and a pipe only as the pipe leaves the live ones; no other structure is |
| `FileLaws.CloseAllIs` | kernel/fs/fs.c:443-460 | closing all of a task's descriptors takes away these, and of other tasks' exactly those that are alone on a pipe then |
| `FileLaws.CloseAllFrees` | kernel/fs/fs.c:443-460 | the structures that this frees are those of the task's files and of the pipes that go |
| `FileLaws.MoveIs` | kernel/fs/fs.c:396-413 | a move gives one descriptor another key and leaves every other one |
| `FileLaws.ForkIs` | kernel/fs/fs.c:415-441 | after fork the descriptors are the old ones and, for each of the parent's, one of the child's |
| `FileLaws.RenameIs` | kernel/fs/fs.c:463-475 | dup closes what has the new id, perhaps with its partner, and then gives the id to the descriptor if it is still there |
| `Descriptors.OpenNodes.GetUnusedOpenNodeId` | kernel/fs/fs.c:40-60 | the endless search ends, with the least id that the task does not use; 0 exactly for a full table |
| `Descriptors.OpenNodes.OpenFile` | kernel/fs/fs.c:95-131 | a found file is open under the returned id, the least that the task did not use, on the found structure, and every other key leads where it led; a full table panics; what is no file is not opened |
| `Descriptors.OpenNodes.CloseFile` | kernel/fs/fs.c:133-184 | the two shifting loops remove the descriptor and the orphan, and exactly these; it panics exactly if the descriptor is a file's whose structure was freed already |
| `Descriptors.OpenNodes.MakePipe` | kernel/fs/fs.c:186-239 | two new ids of one task lead to the new pipe and every other key where it led; panics exactly without room for both; the table stays sound exactly if no descriptor was left with the address |
| `Descriptors.OpenNodes.CopyNodeDescriptor` | kernel/fs/fs.c:415-441 | a copy is appended; the array is overrun exactly if the node is open and the table full |
| `Descriptors.OpenNodes.ForkDescriptors` | kernel/task/task.c:555-561 | the loop over the growing table ends and has copied exactly the parent's descriptors, each under its id for the child |
| `Descriptors.OpenNodes.CloseAllNodeDescriptors` | kernel/fs/fs.c:443-460 | the loop ends with no descriptor of the task and all others but those it leaves alone on a pipe, and panics exactly if a file of it has a freed structure or shares one with another of its files |
| `Descriptors.OpenNodes.MoveNodeDescriptor` | kernel/fs/fs.c:396-413 | the descriptor has the new key, and keys stay unique exactly if it was free |
| `Descriptors.OpenNodes.MovFileDescriptorTo` | kernel/fs/fs.c:463-475 | what had the new id is closed, and the descriptor has it; panics exactly if that close does |
| `FileAccess.ReadFile` | kernel/fs/fs.c:241-263 | a task without the descriptor gets -1, and no other read does; a file gives the bytes at its cursor, a pipe its oldest bytes, a directory none |
| `FileAccess.OpenPath` | kernel/fs/fs.c:95-131 | opening a path gives an open descriptor exactly if the path names a file of the tree, on a cursor at that file's beginning |
| `FileAccess.OpenAndRead` | kernel/fs/fs.c:95-263 | the first read through the id that opening a path returns gives the beginning of the file that the path names, and -1 if it names none |
| `Descriptors.TakenIds` | kernel/fs/fs.c:45-59 | ids cannot all be taken by fewer descriptors |
| `Pipes.Pipe.Write` | kernel/fs/pipe.c:39-64 | what is added to the queue is the front of the data, and all of it or so much that the queue has 4095 bytes; the result is the number of bytes added, but one more if room runs out in the middle |
| `Pipes.Pipe.Read` | kernel/fs/pipe.c:67-94 | the first min(count, available) bytes leave the queue for the caller's buffer, in order; a short read writes one byte more, the free slot's |
| `Pipes.Fifo` | kernel/fs/pipe.c:39-94 | over any interleaving, what was read and what is left is what went in, in order |
| `Pipes.NothingLost` | kernel/fs/pipe.c:39-94 | over any interleaving in which each write finds room for its data, what goes into the pipe is all that is written |
| `Pipes.FewFit` | kernel/fs/pipe.c:39-64 | writes find room for their data in any interleaving if the pipe holds 4095 bytes or fewer with all of it |
| `Pipes.PerformAll` | kernel/fs/pipe.c:39-94 | any interleaving of writes and reads on the pipe itself: what was read, and then what is left, is what was there and what was taken in, in order, and that is all that was written if each write found room |
| `Pipes.Push` | kernel/fs/pipe.c:48-59 | a slot written at the input pointer is the queue's new end, also when the pointer wraps |
| `Pipes.Pop` | kernel/fs/pipe.c:77-89 | the slot at the output pointer is the queue's front, also when the pointer wraps |
| `Pipes.FullIff` | kernel/fs/pipe.c:41-41 | the pointer test for a full ring means 4095 bytes, equal pointers none |
| `Scheduler.BestIs` | kernel/task/scheduler.c:67-96 | the choice is the ready task that was dispatched least recently, the first of them in the list |
| `Scheduler.BestIsChoice` | kernel/task/scheduler.c:65-96 | on the list as it was: among the tasks that are ready or asleep with a time below now, the scan's choice is the one dispatched least recently, the first of them; there is none exactly if none is due |
| `Scheduler.ChoseIs` | kernel/task/scheduler.c:65-108 | if any task is due, this one is dispatched, all that were due are ready, and nothing else has changed |
| `Scheduler.Timetable.Choose` | kernel/task/scheduler.c:65-96 | exactly the sleepers whose time is below now become ready, no other task changes, and the result is the id of the least recently dispatched of all that are due, 0 exactly if there is none |
| `Scheduler.Timetable.Schedule` | kernel/task/scheduler.c:58-108 | nothing happens before the time slice is over or while inactive; otherwise, of the tasks that are ready or whose sleep is over, the one dispatched least recently runs from now on with its pages mapped, and the others are as they were but awake; a panic means that no task is due |
| `Scheduler.Timetable.ForceSchedule` | kernel/task/scheduler.c:50-54 | the same choice is made at once; only if the time slice is the greatest word, nothing happens |
| `Scheduler.IdleIsEnough` | kernel/task/scheduler.c:72-105 | while the idle task is listed and ready, a listed and ready task is chosen |
| `Fairness.BoundedBypass` | kernel/task/scheduler.c:58-108 | while a ready task waits there are no more dispatches than tasks that were ahead of it, whatever forks, sleeps, exits and kills happen between |
| `Fairness.DueBypass` | kernel/task/scheduler.c:77-96 | the same bound for a sleeper from the first schedule after its time on: if that takes another task, the sleeper is ready and waits, that first dispatch counted in |
| `Fairness.ScheduleKeeps` | kernel/task/scheduler.c:65-96 | whoever is due at a schedule and is not chosen waits from then on, with one task less ahead |
| `Fairness.AtMostOnce` | kernel/task/scheduler.c:58-108 | each other task is dispatched at most once, and not at all if it is not ahead |
| `Fairness.ScheduleIsStep` | kernel/task/scheduler.c:58-108 | a dispatching call of schedule on the kernel's state is the step that these runs are made of |
| `Fairness.StepKeeps` | kernel/task/dispatcher.c:78-78 | every dispatch of another task takes one from those ahead, and no event adds one |
| `Fairness.ForkKeeps` | kernel/task/task.c:542-542 | a child, which takes over its parent's dispatch time, is not ahead |
| `ArgParser.ParseArgsNum` | kernel/task/argParser.c:85-98 | the number of spaces with an even number of quotes before them |
| `ArgParser.ParseAndLoadArgs` | kernel/task/argParser.c:24-83 | addresses and strings are laid out argument by argument; the table is overrun exactly if there are more arguments than counted |
| `ArgParser.SlotsIff` | kernel/task/argParser.c:38-75 | one slot for each argument exactly if the first space is unquoted, or half of the spaces are |
| `ArgParser.QuotedFirstSpace` | kernel/task/argParser.c:44-48 | a line whose only space is quoted has an argument without a slot |
| `ArgParser.ArgsJoin` | kernel/task/argParser.c:56-74 | the arguments joined by spaces are the rest of the line without quotes: quoted spaces are kept |
| `ArgParser.ArgBetween` | kernel/task/argParser.c:44-75 | each argument is what lies between one space with an even number of quotes since the first space and the next such space, without the quotes |
| `ArgParser.ArgsAre` | kernel/task/argParser.c:44-75 | there is one argument for each such space |
| `ArgParser.Argv` | kernel/task/argParser.c:63-78 | in the bytes that go to the task each slot holds the address of its argument, inside the range and ended by a NUL |
| `ArgParser.ArgsApart` | kernel/task/argParser.c:65-65 | the strings do not overlap |
| `ArgParser.EmptyArgument` | kernel/task/argParser.c:63-73 | an empty argument's byte is what the heap block held before |
| `Memcpy.Copy` | kernel/memory/memory.c:27-47 | both branches copy upwards byte by byte |
| `Memcpy.AscendingIs` | kernel/memory/memory.c:29-36 | without overlap, or downwards, that is the plain copy of as many bytes |
| `Memcpy.UpwardsIff` | kernel/memory/memory.c:37-45 | to any higher address, overlapping or not, it is the copy asked for exactly if the source repeats with the distance as its period and the byte behind the destination is the extra one already |
| `Memcpy.HugeIff` | kernel/memory/memory.c:37-45 | from 2^31 bytes on nothing is copied upwards: right exactly if both areas are equal already |
| `Memcpy.DownwardsIs` | kernel/memory/memory.c:29-45 | to a lower address it is the copy asked for, and onto itself too below 2^31 bytes |
| `Memcpy.MovedIff` | kernel/memory/memory.c:37-45 | the bytes of the destination are the source's if and only if the source repeats with the distance as its period |
| `Memcpy.AdjacentOverwrites` | kernel/memory/memory.c:37-45 | one byte to the next address, with equal bytes behind both: the extra byte is overwritten with the copied one |
| `Memcpy.OverlapRepeats` | kernel/memory/memory.c:37-45 | upwards each byte is what lies the distance before it, so an overlapping source repeats its first bytes |
| `HeapCopy.CopyKeepsList` | kernel/task/task.c:542-542 | memcpy from block to block copies the area, and the headers in memory stay the list's if and only if it goes downwards, or the byte behind the copy is no header's, or that byte equals the one behind the source |
| `HeapCopy.CopyBlock` | kernel/memory/memory.c:27-47 | the same for the heap's memory: the heap stays sound exactly then |
| `Machine.StoreWordRead` | kernel/memory/heap.c:52-53 | a stored word is read back, lowest byte first in memory, and words and bytes beside it are as before |

## Left out

- Drivers, screen, keyboard, sound, timer ports, ATA and ATAPI, VGA, fonts, printf, fractals and games: port I/O and display. Time is a parameter.
- GDT, IDT, TSS, task gates, the context switch itself and the flush of the lookaside buffer: hardware effects.
- ELF parsing, except the order of its memory requests; user programs; mount points (one root device); `openDir` and `readDir`; the write, create and delete stubs of ramFs; swapping.
- The host's file system is a tree of names and bytes; unreadable host files, owner, group and permission fields of a record are not modelled. Names are shorter than 128 bytes, because the builder copies them without a test.
- The image's memory is taken as zeroed: the root directory's count is never written (fsMaker/main.cpp:267-270). Cluster sizes from 4 bytes to 2^31 and images below 4 GB.
- The loaded image is a value for the reader, which never writes it. The directory branch of `ramFs_seek` cannot be reached through the system calls.
- `CStrings.SubStr`, `CStrings.Split`: the caller's buffer has a byte more than `max`, because the code writes the terminator behind it.
- `Heap.KernelHeap`: frames are a count here; which frames the heap gets is modelled in `AddressSpaces`. There `kmalloc`'s own records are not in memory, and a request for one may let the heap grow by any number of pages.
- `AddressSpaces.Memory`: the bytes of heap frames, in which the kernel keeps its lists, are not modelled; the address space behind the heap is large enough for all frames; a task that kills itself by id, which leaves a running task that is not listed any more, counts as no running task.
- `TaskMemory.AllocMemory`: the range lies in the user area; the code has no test for that and leaves it to its callers.
- `VirtualCopy.MemcpyToTask`: the pages of the destination are there; without one the code follows a null pointer.
- `ForkTask.Fork`: the task structure is copied as intended; the byte that `memcpy` copies more when the child's structure lies higher, and when it damages the heap's list, are in `Memcpy` and `HeapCopy`. The parent's pages are mapped, as they are in a system call.
- `Descriptors.OpenNodes`: the blocks of the descriptors themselves, one of which leaks when a path is not found. The structures of files and pipes are addresses here; when another block of the heap takes over a freed one's address, the second release frees that block, which is not modelled.
- `FileAccess.ReadFile`: the objects behind the descriptors are parameters; one that a freed structure has left behind has none.
- `Syscalls.Kill`: the id is a listed task's. System call 6 takes any id (kernel/task/syscallHandler.c:58-61); with one that is not listed the code follows a null pointer (kernel/task/task.c:526).
- `Scheduler.Timetable.Schedule`: the console output of `idle` before it dispatches the idle task.
- `Fairness.BoundedBypass`: times stay below 0xFFFFFFFF, about 49 days; `start`, which adds a task with dispatch time 0, only happens before the scheduler runs.
- `ArgParser.ParseAndLoadArgs`: the copies into the task's memory are those of `VirtualCopy`; here the bytes that are copied are stated.
