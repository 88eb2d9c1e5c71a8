# Verified models of a small x86_64 kernel

This project models the parts of the kernel whose correctness rests on a structure in memory
agreeing with something much simpler, and proves that agreement in Dafny.

| files | what they model | what it is proved to be |
|---|---|---|
| Paging, RecursiveWindow, PageRange, PageRuns | four-level page tables edited through the recursive entry 511, the frame allocator, range mapping, alloc_proc's redirection of the window | a map from (root, page) to entries, as section 4.5 of the Intel SDM volume 3A walks it |
| Heap, HeapRuns, KernelHeap | malloc, free and sbrk on two intrusive doubly linked lists | blocks of bytes that keep what is stored in them |
| Ahci, Disk, Ext2Blocks, Ext2File, Ext2Inode, Ext2 | scatter lists (section 4.2.3.3 of AHCI 1.3.1), the byte-to-sector layer, the ext2 pointer tree, the inode record and the inode read loop | a file is a sequence of bytes |
| VfsPath, Vfs, VfsCalls, VfsRuns | path normaliser, lookup, mkdir and mount of the virtual file system | a map from component lists to kinds of nodes |
| Calculator, Itoa | the shell calculator's recursive-descent evaluator; itoa and atoi | the meaning of expression trees; numerals |
| Checksum, Packet | the Internet checksum (section 2 of RFC 1071, section 3.1 of RFC 791); UDP, IPv4 and Ethernet headers put in front of a payload in place | the one's-complement sum; a frame that a receiver takes apart again |
| Calendar | unix_time and day_of_week | the calendar, day by day (section 4.16 of the POSIX.1-2017 Base Definitions) |
| Scheduler, Arp | the tick scheduler; the ARP cache (RFC 826) | round robin; a map from addresses to the latest translation |
| Align, Common | aalign and aalign_down; shared types | |

Code that updates things in place is a class or a method on arrays (`RecursiveWindow.Mmu`,
`KernelHeap.Allocator`, `Disk.Drive`, `Calculator.Cursor`, `VfsCalls.FileTree`,
`Scheduler.Kernel`, `Arp.Cache`, the methods of `Itoa`, `Packet`, `VfsPath`). Each method is
proved equal to a function on values, and the lemmas are about those functions. `dafny verify
dfyconfig.toml` checks everything.

## Where the code does less than its purpose

The code is modelled as it is. Where a property it is meant to have fails, a lemma says exactly
when it holds.

- alloc_proc does not clear the frame it takes for a PML4: it is a new tree of one table exactly if
  it came without present entries; a stale entry can pull in another frame as a table
  (`PageRuns.NewRootWellFormed`, `PageRuns.StaleEntryAdopts`).
- A frame is marked used with the low byte of the pid, so a pid that is a multiple of 256 leaves
  it free (`Paging.AllocateTwice`).
- A range whose inclusive end is a page boundary loses its last page (`PageRange.InclusiveEnd`),
  and unmapping with set_in_allocator frees the byte-map cells of virtual page numbers
  (`PageRange.UnmapRangeFreesTables`).
- malloc never stores the `bk` of a reused chunk, although docs/Heap.md describes the chunk as a
  list head afterwards; a later free of that chunk can put one chunk on both lists
  (`Heap.MallocCleanIff`, `Heap.FreeKeepsIff`, `HeapRuns.StaleHeadReachable`). With the store
  made, every run is safe (`HeapRuns.MendedRunRefines`).
- read_disk copies from the middle of a buffer that can be too short (`Disk.ReadDiskIff`), and
  write_disk uses a negative offset unless it is given a sector boundary (`Disk.WriteDiskIff`).
- The ext2 driver is right for 1 KiB blocks, group 0 and reads that start on a block boundary or
  are one short read, and reads a hole from the start of the disk (`Ext2.PlaceIff`,
  `Ext2.DescriptorIff`, `Ext2File.ReadLoopIff`, `Ext2.HoleIff`).
- vfs_get_node reads one byte behind the terminator, and a path that exists is found exactly if
  that byte is zero (`VfsCalls.GetIff`, `VfsCalls.MkdirExisting`); vfs_mkdir drops the first character of a relative path of
  which nothing exists (`VfsCalls.MkdirFindsIff`, `VfsCalls.MkdirKeepsIff`).
- encapsulate_ipv4 swaps a checksum that was already in memory order, so a header verifies exactly
  if the checksum's two bytes are equal (`Packet.HeaderVerifiesIff`, `Packet.HeaderFails`).
- day_of_week looks in front of its table on Saturdays (`Calendar.LookupIff`).
- The scheduler never gets past a process that is not ready (`Scheduler.StuckIff`).
- ARP addresses whose first byte is 0 look like free slots (`Arp.ZeroIff`).
- append_node is documented to add at the end of a list; it adds at the front, and so do the
  models of the directory and process lists.

## Model

| member | source | states |
|---|---|---|
| Align.UpIsLeast | libc/memory/memory.c:3-8 | aalign gives the least multiple not below the address, as long as it fits 64 bits |
| Paging.AllocateTwice | kernel/arch/x86_64/mmu/pframe.c:56-67 | two allocations in a row give different frames exactly when the first pid's low byte is not 0 |
| Paging.StoreFrame | kernel/arch/x86_64/mmu/page.c:148-210 | a store into a table entry is seen only by walks that pass through that entry, because no table is shared |
| Paging.HangTableWalk | kernel/arch/x86_64/mmu/page.c:163-202 | hanging a fresh empty table below an absent entry changes no walk of any tree |
| Paging.DescendKeeps | kernel/arch/x86_64/mmu/page.c:163-176 | one "check, allocate, zero" stanza keeps every tree well formed and every walk; it takes at most one frame, which was free, and writes to no frame that is not a table afterwards |
| Paging.MakeTablesKeeps | kernel/arch/x86_64/mmu/page.c:163-202 | the three stanzas succeed exactly when the missing tables fit in the free frames, change no walk, and take only free frames |
| Paging.MapPageCorrect | kernel/arch/x86_64/mmu/page.c:148-210 | map_page succeeds exactly when enough frames are free; then the page walks to physical and flags, every other page of every tree keeps its walk, and on exhaustion none changes; trees stay apart; every new table was a free frame, used cells keep their marks, nothing else is taken, and frames that are no tables keep their words |
| Paging.OwnersUnique | kernel/arch/x86_64/mmu/page.c:86-88 | given the roots, the entries alone decide which frames are tables and where |
| Paging.UnmapPageCorrect | kernel/arch/x86_64/mmu/page.c:212-237 | unmap_page removes one translation and keeps all others |
| Paging.IsPageMappedIsWalk | kernel/arch/x86_64/mmu/page.c:239-271 | is_page_mapped agrees with the processor's walk |
| Paging.MapInWindow | kernel/arch/x86_64/mmu/page.c:154-206 | mapping a page of the recursive window overwrites an entry of the root itself |
| RecursiveWindow.AddrSplits | kernel/arch/x86_64/mmu/page.c:59-77 | for every four indices the built address is canonical and the processor splits it back into them |
| RecursiveWindow.WindowReaches | kernel/arch/x86_64/mmu/page.c:159-201 | with K[511] pointing to P and P[511] to P, the walk under K of the four built addresses reaches exactly P, its PDPT, PD and PT |
| RecursiveWindow.ChildSeen | kernel/arch/x86_64/mmu/page.c:165-176 | after an entry is stored through the window, the next window page leads to the new table |
| RecursiveWindow.Mmu.AllocatePage | kernel/arch/x86_64/mmu/pframe.c:56-67 | returns the address of the first free frame and marks it, or 0 |
| RecursiveWindow.Mmu.EnsureTable | kernel/arch/x86_64/mmu/page.c:163-176 | editing through window addresses does exactly one step of the table-making function on the shown tree |
| RecursiveWindow.Mmu.EnsureTables | kernel/arch/x86_64/mmu/page.c:163-202 | the three levels, through the window |
| RecursiveWindow.Mmu.MapPage | kernel/arch/x86_64/mmu/page.c:148-210 | map_page through virtual addresses only is MapPage on the tree the window shows, whichever root is active |
| RecursiveWindow.Mmu.UnmapPage | kernel/arch/x86_64/mmu/page.c:212-237 | the same for unmap_page |
| PageRange.PagesDiffer | kernel/arch/x86_64/mmu/pframe.c:27-38 | different page numbers of a range clear of the window are different pages |
| PageRange.MapRangeCorrect | kernel/arch/x86_64/mmu/pframe.c:27-38 | page k of a range is translated to base plus k, or kept when frames ran out; everything else and every other tree keeps its walks, and used frames are spared; with set_in_allocator every byte-map cell of the range holds the pid's low byte, every other used cell keeps its mark, and without it all do |
| PageRange.UnmapRangeCorrect | kernel/arch/x86_64/mmu/pframe.c:44-54 | unmapping removes exactly the walks of the range's pages |
| PageRange.MapThenUnmap | kernel/arch/x86_64/mmu/pframe.c:27-54 | mapping an untranslated range and unmapping it restores every walk of every tree, although tables stay |
| PageRange.UnmapRangeFreesTables | kernel/arch/x86_64/mmu/pframe.c:44-54 | with set_in_allocator some owner map of the same roots is still well formed exactly when no virtual page number of the range is a table frame or 0 |
| PageRange.InclusiveEnd | kernel/arch/x86_64/mmu/pframe.c:28-32 | the page of the inclusive end is visited exactly when that end is not a page boundary |
| PageRange.RangeTranslates | kernel/arch/x86_64/mmu/pframe.c:27-38 | every address of a visited page leads to the aligned physical base plus its distance from the aligned start, unless frames ran out; every other address of every root leads where it did |
| PageRange.RangeUntranslates | kernel/arch/x86_64/mmu/pframe.c:44-54 | every address of a visited page leads nowhere, every other one where it did |
| PageRange.RangeRestored | kernel/arch/x86_64/mmu/pframe.c:27-54 | mapping a range that led nowhere and unmapping it restores where every address of every root leads |
| PageRange.OnRangeIff | kernel/arch/x86_64/mmu/pframe.c:28-32 | for canonical addresses, sharing the index bits of a visited page is being on one |
| PageRange.MapMemoryRange | kernel/arch/x86_64/mmu/pframe.c:27-38 | the loop over addresses, through the window, maps exactly the page numbers from the aligned start to the aligned end, with the translations of RangeTranslates and the byte-map marks of MapRangeCorrect, and spares used frames |
| PageRange.UnmapMemoryRange | kernel/arch/x86_64/mmu/pframe.c:44-54 | the loop over addresses unmaps exactly those page numbers; the machine stays valid exactly when set_in_allocator is 0 or the range avoids frame 0 and every table |
| PageRuns.SetWindowKeeps | kernel/process/process.c:116-144 | pointing a root's entry 511 at another root changes no walk outside the window |
| PageRuns.NewRootWellFormed | kernel/process/process.c:107-114 | an uncleared frame becomes a new tree of one table beside the others, under any owner map, exactly when it had no present entries |
| PageRuns.StaleEntryAdopts | kernel/process/process.c:107-114 | a stale entry that leads to an empty used frame makes that frame a table of the new tree |
| PageRuns.StepKeeps | kernel/process/process.c:107-147 | every step keeps the invariant, changes active root, shown tree, roots and translations as the plain model does from what the call returned, spares used frames and hands out only free ones |
| PageRuns.RunRefinesMap | kernel/process/process.c:107-147 | over every run of map, unmap, mark, allocate, redirect, activate and new root, the active root, the shown tree and the translation of every page of every root are those of a plain model that sees only the operations and their results; used frames that are no tables are neither taken nor written |
| PageRuns.HeldKept | kernel/arch/x86_64/mmu/pframe.c:56-67 | a frame handed out stays in use over every run, never becomes a table and keeps its words |
| PageRuns.HandedOnce | kernel/arch/x86_64/mmu/pframe.c:56-67 | over every run no frame is handed out twice |
| PageRuns.MarkedNotHanded | kernel/arch/x86_64/mmu/pframe.c:27-38 | over every run, a frame whose cell was marked is not handed out afterwards |
| PageRuns.BootStarts | kernel/arch/x86_64/mmu/page.c:28-36 | the cleared kernel PML4 with its recursive entry is well formed and translates nothing, whatever memory held |
| PageRuns.RunFromBoot | kernel/arch/x86_64/mmu/page.c:28-36 | from that root on, over every run, translations are those of a map that starts empty |
| Heap.ValidLayout | libc/memory/malloc.c:46-61 | chunks that tile the heap have disjoint headers and data |
| Heap.NewSizeIff | libc/memory/malloc.c:46-52 | a new chunk has room for its request exactly when the rounded size fits the 32-bit field |
| Heap.MallocCorrect | libc/memory/malloc.c:9-97 | malloc keeps both lists linked, apart and complete and returns a block that was not live, is large enough and zero, and disturbs no live block |
| Heap.MallocCleanIff | libc/memory/malloc.c:63-91 | the new head's bk is right exactly when the chunk was first in the bin or new |
| Heap.MallocReuses | libc/memory/malloc.c:21-43 | malloc takes the first chunk of the bin that has room for 32 bytes and the request rounded to 16; the heap does not grow |
| Heap.MallocGrowsIff | libc/memory/malloc.c:45-55 | the heap grows exactly when no chunk of the bin has room, by a chunk at the old end of at least 64 bytes, rounded up to 64 |
| Heap.FreeFinds | libc/memory/free.c:9-13 | free finds the chunk of a live block |
| Heap.FreeUnknown | libc/memory/free.c:4-47 | free of a pointer that is no live block changes nothing |
| Heap.FreeKeepsIff | libc/memory/free.c:4-47 | free of a live block keeps the heap valid exactly when the block is not the list head or the head's bk is right; otherwise one chunk heads both lists |
| Heap.FreeErases | libc/memory/free.c:22-39 | unless the head is stale, a freed block reads 0 and is first in the bin |
| HeapRuns.StepKeeps | libc/memory/malloc.c:9-97 | one call, or one store into a live block, keeps the heap valid |
| HeapRuns.PokeKeeps | libc/memory/malloc.c:9-97 | a store into a live block changes no header |
| HeapRuns.RunRefines | libc/memory/free.c:4-47 | over every run in which no free hits a stale head, chunks tile the heap, none is lost, and every live byte holds what was last stored since its malloc, or 0 |
| HeapRuns.MendedRunRefines | libc/memory/malloc.c:63-91 | with the bk of a reused chunk stored as docs/Heap.md:61 intends, the same holds over every run, whatever is freed |
| HeapRuns.LiveBlocksApart | libc/memory/malloc.c:9-97 | live blocks lie inside the heap and share no byte |
| HeapRuns.StaleHeadReachable | libc/memory/malloc.c:63-91 | a concrete run of legal calls after which free ruins the heap |
| KernelHeap.Allocator.constructor | libc/memory/heap.c:9-35 | the initial heap is valid, empty and aligned, on memory with any contents |
| KernelHeap.Allocator.Sbrk | libc/memory/heap.c:44-49 | returns the old end and moves it up by the rounded increment |
| KernelHeap.Allocator.Search | libc/memory/malloc.c:21-43 | the walk along fd links finds the first chunk of the bin that fits |
| KernelHeap.Allocator.Find | libc/memory/free.c:9-13 | the walk finds the allocated chunk of a data pointer |
| KernelHeap.Allocator.Unlink | libc/memory/malloc.c:24-41 | the shared pointer code unlinks a chunk |
| KernelHeap.Allocator.Malloc | libc/memory/malloc.c:9-97 | the pointer code is Malloc on the state, and keeps the heap valid |
| KernelHeap.Allocator.Free | libc/memory/free.c:4-47 | the pointer code is Free on the state, and keeps the heap valid unless it hits a stale head |
| Ahci.BuildPrdt | kernel/driver/ahci.c:314-334 | for every positive count the entries tile the buffer without gap, total count sectors, number ceil(count/16), and fit the table exactly when count is at most 128 |
| Ahci.ScatterIsCopy | kernel/driver/ahci.c:405-421 | a controller that follows a tiling table fills the buffer as one contiguous copy |
| Ahci.GatherIsCopy | kernel/driver/ahci.c:314-334 | in the other direction it sends the buffer's bytes in order |
| Ahci.LbaRoundTrip | kernel/driver/ahci.c:343-350 | the six bytes of a command name the sector exactly when its number is below 2^48 |
| Disk.ReadCovered | kernel/driver/disk.c:49-73 | a read whose bytes all lie in the temporary buffer is right whatever lies behind it |
| Disk.ReadDiskIff | kernel/driver/disk.c:49-73 | read_disk returns the bytes asked for, for all memory contents, exactly when it is so covered |
| Disk.WriteAligned | kernel/driver/disk.c:75-100 | on a sector boundary write_disk changes exactly its bytes and keeps the rest of the last sector |
| Disk.WriteDiskIff | kernel/driver/disk.c:75-100 | write_disk is right on every disk exactly when the offset is a sector boundary |
| Disk.WriteThenRead | kernel/driver/disk.c:49-100 | what was written on a sector boundary is read back |
| Disk.Drive.Read | kernel/driver/disk.c:49-73 | read_disk, through a table that fits and a sector number that the command can hold, is ReadDisk on the image |
| Disk.Drive.Write | kernel/driver/disk.c:75-100 | write_disk under the same conditions is WriteDisk on the image |
| Ext2Blocks.PathOfIndex | kernel/driver/ext2.c:225-360 | every block index below 12+n+n²+n³ has a pointer-tree path with indices below n, which leads back to it |
| Ext2Blocks.IndexOfPath | kernel/driver/ext2.c:225-360 | every such path has an index, which leads back to it: the split is a bijection |
| Ext2Blocks.NthBlockFollows | kernel/driver/ext2.c:225-360 | the driver returns the place of the leaf on that path; no 32-bit cast loses anything for n up to 65535 |
| Ext2Blocks.NthBlockZeroIff | kernel/driver/ext2.c:225-360 | it returns 0 exactly when the index is out of range or a pointer on the path is null, or for block 1 of a volume at byte 0 |
| Ext2File.ReadLoopAligned | kernel/driver/ext2.c:155-171 | from a block boundary the read loop delivers exactly the file's bytes |
| Ext2File.ReadLoopIff | kernel/driver/ext2.c:155-171 | the loop is right on every volume exactly when it starts on a block boundary or is one read inside its block and sectors |
| Ext2Inode.Decodes | kernel/include/ext2.h:122-141 | for every inode record, written field by field little-endian, the driver's decoder gives back its fifteen pointers and its 64-bit length |
| Ext2Inode.DecodeEncode | kernel/include/ext2.h:122-141 | every 128 bytes are the encoding of one record |
| Ext2.ReadInode | kernel/driver/ext2.c:155-171 | the loop with its buffer and 64-bit arithmetic; on a standard volume, for an inode of group 0 whose place holds the encoding of a record, it returns the length of file[offset .. min(length, offset+count)) and exactly those bytes, by the record's pointers and length |
| Ext2.ReadIsFile | kernel/driver/ext2.c:155-171 | inode lookup, decoding, block map and read loop together deliver the bytes that the standard gives the file of the record stored there |
| Ext2.LastOffset | kernel/driver/ext2.c:159-159 | the unsigned last offset is the last byte wanted exactly when there is one |
| Ext2.PlaceIff | kernel/driver/ext2.c:179-198 | the driver's place of a block is the standard's exactly for 1 KiB blocks |
| Ext2.DescriptorIff | kernel/driver/ext2.c:16-24 | the driver reads the inode table of a group right on every volume that has it exactly for group 0 |
| Ext2.DescriptorAt | kernel/include/ext2.h:112-119 | the driver takes a group's inode table from byte 8 of an 18-byte descriptor |
| Ext2.InodeIsStandard | kernel/driver/ext2.c:26-34 | in group 0 the driver's inode bytes are the standard's |
| Ext2.FollowIsStandard | kernel/driver/ext2.c:200-223 | following pointers through the sector layer reads the standard's pointers |
| Ext2.FileByteIsStandard | kernel/driver/ext2.c:155-171 | on solid blocks the bytes found through the driver's block map are the standard's |
| Ext2.ReadInodeIsFile | kernel/driver/ext2.c:155-171 | on 1 KiB blocks, a read is file[offset .. min(size, offset+count)) and its length, through pointer tree, indirect blocks and sectors |
| Ext2.HoleIff | kernel/driver/ext2.c:155-171 | a hole is read right exactly when the first bytes of the disk are zero |
| Calculator.NumberReads | user/shell/bc.c:16-41 | number reads every literal back, in either radix and sign, and stops behind it |
| Calculator.FactorReads | user/shell/bc.c:48-65 | factor consumes exactly the text of a factor and returns its meaning |
| Calculator.TermReads | user/shell/bc.c:67-90 | the same for products, left to right, with truncating division |
| Calculator.QuotientTruncates | user/shell/bc.c:83-83 | the division of the evaluator and that of the meaning are both the one number that leaves a remainder shorter than the divisor, 0 or of the dividend's sign |
| Calculator.DigitIs | user/shell/bc.c:28-34 | a digit's value is its place in 0123456789abcdef, whatever its case |
| Calculator.WrapIs | user/shell/bc.c:28-34 | wrap-around changes a value by multiples of 2^32 into 32 bits |
| Calculator.EvalReads | user/shell/bc.c:92-110 | the same for sums |
| Calculator.EvalKeepsError | user/shell/bc.c:92-110 | an error flag is never cleared |
| Calculator.EvalOfText | user/shell/bc.c:92-110 | for every expression, spacing and extra parentheses, eval consumes exactly the text and returns its value with err 0, and reports an error if a divisor is zero |
| Calculator.EvalMatched | user/shell/bc.c:48-65 | for every text, what eval consumes without an error has all its parentheses matched |
| Calculator.LacksClosing | user/shell/bc.c:55-59 | every text whose first parenthesis is never closed is reported as an error |
| Calculator.UnclosedFails | user/shell/bc.c:55-59 | an opened parenthesis, an expression and no closing one give error 1 |
| Calculator.DivisionFails | user/shell/bc.c:79-82 | a quotient by zero gives error 2 and value 0, and is consumed |
| Calculator.PrintMeans | user/shell/bc.c:48-110 | printing a tree with just the parentheses it needs keeps its meaning |
| Calculator.PrintThenEval | user/shell/bc.c:16-110 | evaluating the printed tree gives the tree's value |
| Calculator.Cursor.ReadNumber | user/shell/bc.c:16-41 | the loops over the moving cursor are Number, and never pass the end of the text |
| Calculator.Cursor.ReadFactor | user/shell/bc.c:48-65 | the recursive method is Factor |
| Calculator.Cursor.ReadTerm | user/shell/bc.c:67-90 | the loop is Term |
| Calculator.Cursor.Evaluate | user/shell/bc.c:92-110 | the loop is Eval, terminates on every input and never passes the end of the text |
| VfsPath.Preprocess | kernel/arch/x86_64/vfs.c:260-291 | in the block it writes, preprocess_path leaves the normal path, a terminator for every separator cut off and one more, and the old bytes behind |
| VfsPath.NormalIsCanonical | kernel/arch/x86_64/vfs.c:260-291 | the result has no white space, no double and no trailing separator but "/"; normalising is idempotent and leaves canonical paths alone |
| VfsPath.NormalKeepsMeaning | kernel/arch/x86_64/vfs.c:260-291 | it keeps every component of the path before its first white space, and whether it is absolute |
| VfsPath.OnePiece | kernel/arch/x86_64/vfs.c:344-349 | the rest of a canonical path holds one component exactly when it has no separator |
| Vfs.FindChildAt | kernel/arch/x86_64/vfs.c:294-307 | in a tree, the child found is the node one step below, or none exactly when there is none |
| Vfs.LookupSplits | kernel/arch/x86_64/vfs.c:393-473 | lookup splits every path into the path of the deepest node on it, or the first mount point, and the rest |
| Vfs.WithChildWellFormed | kernel/arch/x86_64/vfs.c:317-390 | a new child, first among its siblings, keeps the tree: one path per node, distinct separator-free sibling names |
| Vfs.LookupAfterMkdir | kernel/arch/x86_64/vfs.c:317-390 | after a directory is made at p, p and what is below it lead there and every other path is looked up as before |
| Vfs.WithMountWellFormed | kernel/arch/x86_64/vfs.c:476-509 | a mount keeps the tree |
| Vfs.LookupAfterMount | kernel/arch/x86_64/vfs.c:476-509 | after a mount every path below it yields the mount point with exactly its suffix, every other path is looked up as before |
| VfsCalls.FileTree.constructor | kernel/arch/x86_64/vfs.c:309-315 | init_vfs makes one empty directory |
| VfsCalls.FileTree.FindChildNode | kernel/arch/x86_64/vfs.c:294-307 | the list walk finds the first child of the name |
| VfsCalls.FileTree.GetNode | kernel/arch/x86_64/vfs.c:393-473 | the cursor loop over the block is Get, with its error results for empty and blank paths |
| VfsCalls.FileTree.Mkdir | kernel/arch/x86_64/vfs.c:317-390 | makes the directory MkdirOf names, first among its siblings, and changes nothing else |
| VfsCalls.FileTree.MountFileSystem | kernel/arch/x86_64/vfs.c:476-509 | turns exactly the node MountOf names into a mount point |
| VfsCalls.ScanIsLookup | kernel/arch/x86_64/vfs.c:427-467 | the scan of the string and the lookup of its components stop at the same node with the same rest |
| VfsCalls.SettledIff | kernel/arch/x86_64/vfs.c:285-290 | the byte behind the terminator is zero exactly when a trailing separator was cut off or memory happened to hold zero |
| VfsCalls.GetIsLookup | kernel/arch/x86_64/vfs.c:393-473 | vfs_get_node returns what the lookup of the path's components says, and the rest as a position in the path; MemoryErr for an empty path, InvalidPath for a blank one |
| VfsCalls.GetIff | kernel/arch/x86_64/vfs.c:462-473 | a path that exists is found exactly when that byte is zero, or the path is the root |
| VfsCalls.MkdirOfIs | kernel/arch/x86_64/vfs.c:317-390 | vfs_mkdir adds to the directory one component short of the path, under that component, less its first character when a relative path matched nothing |
| VfsCalls.MkdirFindsIff | kernel/arch/x86_64/vfs.c:344-372 | after a successful vfs_mkdir the path is found at the new directory exactly when it was missing and not so clipped |
| VfsCalls.MkdirKeepsIff | kernel/arch/x86_64/vfs.c:344-372 | a vfs_mkdir, on a path that exists or not, keeps sibling names distinct and good exactly when it did not clip to an empty or existing name |
| VfsCalls.MkdirExisting | kernel/arch/x86_64/vfs.c:462-467 | on a path that exists it makes nothing if the byte behind the terminator is zero, and otherwise can make a directory named by the bytes there |
| VfsRuns.MkdirOfFit | kernel/arch/x86_64/vfs.c:317-390 | a directory is made exactly when its parent exists as a directory and the path is new |
| VfsRuns.MountOfFit | kernel/arch/x86_64/vfs.c:476-509 | a mount happens exactly at an existing empty directory |
| VfsRuns.RunRefines | kernel/arch/x86_64/vfs.c:317-509 | every run, on absolute, relative, blank or empty paths, in which no existing path is followed by a nonzero byte and no name is clipped to nothing or to a sibling, keeps the tree and does to it what a plain map from paths to kinds does |
| VfsRuns.FoundAfterRun | kernel/arch/x86_64/vfs.c:393-473 | from init_vfs, after every run a path is found exactly when that map holds it |
| Itoa.Itoa | libc/stdlib/itoa.c:3-52 | writes the text of the number and a terminator and nothing behind it, or nothing for a base outside 2..36 |
| Itoa.WriteDigits | libc/stdlib/itoa.c:29-36 | the digit loop writes the digits of the absolute value, least significant first |
| Itoa.ReverseRange | libc/stdlib/itoa.c:41-49 | the swapping loop reverses the digits in place and touches nothing else |
| Itoa.ReversedDenotes | libc/stdlib/itoa.c:29-49 | for every base the reversed digits denote the absolute value and have no leading zero |
| Itoa.NumeralUnique | libc/stdlib/itoa.c:29-49 | every digit string without leading zero is the text of the number it denotes |
| Itoa.SpelledIff | libc/stdlib/itoa.c:3-52 | itoa's text is a given numeral, after its sign, exactly when that numeral denotes the absolute value |
| Itoa.Atoi | libc/stdlib/atoi.c:3-28 | the cursor loops read white space, a sign and decimal digits, in 64-bit arithmetic that wraps around |
| Itoa.ReadText | libc/stdlib/atoi.c:3-28 | atoi of white space, a sign or none, digits and a tail is the number the digits write, negated behind a minus |
| Itoa.TextNumbered | libc/stdlib/atoi.c:3-28 | every text has such parts |
| Itoa.SpaceIs | libc/stdlib/atoi.c:8-11 | the characters skipped are those of codes 32 and 9 to 13 |
| Itoa.DigitCharIs | libc/stdlib/itoa.c:33-34 | digit d is written as entry d of the figures and then the letters |
| Itoa.WrapIs | libc/stdlib/atoi.c:22-27 | wrap-around changes a number by multiples of 2^64 into 64 bits |
| Itoa.ReadSpelled | libc/stdlib/atoi.c:3-28 | atoi undoes itoa in base 10, whatever non-digit follows |
| Checksum.FoldAdds | kernel/net/ipv4.c:13-18 | folding once after each word keeps the one's-complement sum in 16 bits |
| Checksum.Ipv4Checksum | kernel/net/ipv4.c:8-30 | for data of any length, the complement of the one's-complement sum |
| Checksum.SwapCommutes | libc/endian/endian.c:10-12 | swapping the bytes of every word swaps the checksum's bytes |
| Checksum.VerifiesIff | kernel/net/ipv4.c:8-30 | with a word stored natively in a zero field, a second run gives 0 exactly when that word is the checksum or stands for its other zero |
| Packet.Memmove | libc/string/memmove.c:3-17 | overlapping or not, the destination gets what the source held before |
| Packet.FieldIff | kernel/net/udp.c:7-13 | a big-endian field reads back as the value exactly when it fits 16 bits |
| Packet.EncapsulateUdp | kernel/net/udp.c:3-23 | the header in front of the payload, and eight bytes more moved than needed |
| Packet.EncapsulateIpv4 | kernel/net/ipv4.c:32-57 | the header, with the swapped checksum, in front of the packet |
| Packet.EncapsulateEthernet | kernel/net/ethernet.c:9-30 | the header in front, 60 zero bytes behind, length at least 60 |
| Packet.HeaderVerifiesIff | kernel/net/ipv4.c:46-47 | the emitted header sums to 0 exactly when the two bytes of the checksum are equal |
| Packet.HeaderFails | kernel/net/ipv4.c:46-47 | a concrete header that does not |
| Packet.EncapsulateAll | kernel/net/dns.c:58-81 | UDP, IPv4 and Ethernet in turn leave the frame of three headers, the intact payload and zero padding, of length max(60, len+42) |
| Packet.FrameFields | kernel/net/ethernet.c:9-30 | the payload is at offset 42, the length fields hold len+8 and len+28 big-endian, the padding is zero, and a receiver reads every address, port, protocol and type back from its place |
| Packet.RoundTripIff | kernel/net/udp.c:3-23 | a receiver gets the payload back exactly when the UDP length field can hold its length |
| Calendar.NextCounts | libc/time/time.c:100-140 | each next calendar day counts one more, across the ends of months and leap years |
| Calendar.CountOrders | libc/time/time.c:113-140 | day counts order dates as the calendar does and tell them apart |
| Calendar.CountIsPosition | libc/time/time.c:113-140 | the n-th day after 1970-01-01 has day count n |
| Calendar.PositionIsCount | libc/time/time.c:113-140 | every valid date is the day its count says |
| Calendar.UnixOrders | libc/time/time.c:113-140 | unix_time is strictly increasing in year, month, day, hour, minute, second, and tells moments apart |
| Calendar.UnixCounts | libc/time/time.c:130-139 | each next second of the calendar and the clock adds exactly 1 |
| Calendar.UnixNextDay | libc/time/time.c:130-131 | the same time of the next day is 86400 later, across the ends of months and leap years |
| Calendar.UnixIsPosition | libc/time/time.c:113-140 | the n-th second after midnight of 1970-01-01 has unix time n |
| Calendar.PositionIsUnix | libc/time/time.c:113-140 | every moment is the second its unix time says |
| Calendar.UnixTime | libc/time/time.c:113-140 | the loops over years and months compute the number of seconds since 1970-01-01 00:00:00 |
| Calendar.YearsClosed | libc/time/time.c:117-120 | the year loop's sum in closed form |
| Calendar.ZellerAgrees | libc/time/time.c:142-158 | for every valid date Zeller's h and the day count D satisfy (h+6) mod 7 = (D+4) mod 7 |
| Calendar.LookupIff | libc/time/time.c:142-158 | the table index h-1 is in range exactly when the day is no Saturday, and is then the day |
| Calendar.SaturdayFails | libc/time/time.c:154-157 | a concrete Saturday |
| Scheduler.Kernel.HandleTick | kernel/process/sched.c:36-70 | the handler's whole new state, the process to run, and the registers it returns to |
| Scheduler.Kernel.SaveContext | kernel/process/sched.c:8-29 | every register is kept under its own name |
| Scheduler.Kernel.NextInList | kernel/process/sched.c:52-56 | the process behind the current one, or the first |
| Scheduler.Kernel.OnTick | kernel/process/process.c:163-171 | a timer interrupt with the run_next_proc it returns to is Tick: the new state, the process dispatched, and the context it runs with |
| Scheduler.EntersKernel | kernel/process/sched.c:59-63 | a dispatch interrupts user code only and returns to run_next_proc on the kernel stack, in segments 0x08 and 0x10, with flag 9 clear and every other flag and register kept; no tick passes there |
| Scheduler.DispatchesApart | kernel/process/sched.c:36-70 | over every run with a clock that never goes back, two dispatches are at least 50 ms apart, skipped attempts or not |
| Scheduler.OnlyReady | kernel/process/sched.c:58-58 | over every run only READY processes with pid other than 0 and 1 are dispatched |
| Scheduler.Robin | kernel/process/sched.c:52-56 | on a fixed list of processes the k-th dispatch runs the k-th in turn |
| Scheduler.EachOnce | kernel/process/sched.c:36-70 | any n consecutive dispatches of n processes run each exactly once |
| Scheduler.ContextKept | kernel/process/sched.c:46-48 | a saved context is kept over every run in which its process does not run |
| Scheduler.ResumesWhere | kernel/process/sched.c:36-70 | a process that a tick interrupts starts its next turn, at once or after any run without it, with exactly the registers it was interrupted with |
| Scheduler.SuccessorIs | kernel/process/sched.c:52-56 | the turn is the next one's around the list, and the first one's if nobody in the list is current |
| Scheduler.AttemptStaysOpen | kernel/process/sched.c:42-69 | after a tick that was due and found nobody ready, over every run without a dispatch, any later user-mode tick at any time dispatches the process whose turn it is exactly when that one is ready |
| Scheduler.StuckIff | kernel/process/sched.c:58-69 | ticks alone ever dispatch something exactly when the next process is ready |
| Arp.Cache.CacheEntry | kernel/net/arp.c:9-27 | the slot loop is Insert, and tells whether there was room |
| Arp.Cache.CleanUp | kernel/net/arp.c:37-44 | the slot loop clears exactly the stale slots |
| Arp.Cache.Clear | kernel/net/arp.c:30-34 | every slot is cleared |
| Arp.Cache.FindMac | kernel/net/arp.c:85-99 | the slot loop is Find |
| Arp.FitsIff | kernel/net/arp.c:9-27 | there is room exactly when one of the sixteen slots holds the address or is free |
| Arp.InsertFinds | kernel/net/arp.c:9-27 | an insertion is found at once and disturbs no other address, unless the cache is full |
| Arp.ClearedFinds | kernel/net/arp.c:30-34 | a cleared cache finds only 0.0.0.0, as the zero address |
| Arp.CleanupFinds | kernel/net/arp.c:37-44 | a cleanup forgets exactly the translations more than 30000 ms old; no older duplicate comes to light |
| Arp.RunRefines | kernel/net/arp.c:9-44 | over every run of insert, cleanup and clear, lookup gives the latest translation of each address and never an older one |
| Arp.ZeroIff | kernel/net/arp.c:12-12 | in any cache, a stored translation survives the next insertion exactly when the address's first byte is not 0 or the other address had a slot in front |

## Left out

- Hardware: the bootloader, assembly, CR3 and TLB instructions, cli and sti, PCI, RTL8139, PIC and PIT; the active root is a variable and a sector transfer is one step.
- The boot loader's own page tables, under which the kernel's first mappings are made.
- Permission bits and large pages of a page-table walk: an entry is a frame, flags and a present bit.
- deallocate_page: it has no caller and treats the byte map as a bit map.
- Zeroing a page or a block with memset is one step in the paging and heap models.
- Heap.MallocCorrect: memory cells of different width are keyed by their start address, so overlaps of header fields cannot be expressed; sizes are those whose rounded value fits 32 bits (see NewSizeIff), and sbrk has no limit, as in the code.
- Timeouts, retries and port control of the AHCI driver.
- ext2 name lookup, directory listing and the superblock's magic number; inode numbers are given, in group 0 for InodeIsStandard.
- The freeing of path buffers in the virtual file system, nodes of other types, and names of 256 bytes and more.
- VfsRuns.RunRefines: a path that exists is followed by a second terminator and no name is clipped to nothing or to a sibling; MkdirExisting and MkdirKeepsIff say what happens otherwise.
- Itoa.Itoa: the least 64-bit number is excluded, since its negation overflows.
- Calculator.EvalOfText: for expressions whose value and intermediate values fit 32 bits; the evaluator's wrap-around is modelled.
- Pid and process-memory bitmaps, exec, exit and process teardown; the scheduler's list grows only.
- Waiting for ARP replies, arp_cache_maintenance's timer, sending ARP and DNS packets; the UDP checksum, which the code leaves 0.
- Reading the real-time clock.
- File descriptors, keyboard and TTY, printf and scanf, the shell's other commands, ELF loading, rand: they would add only easy members.
