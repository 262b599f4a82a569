# Verified models of uCore components

Dafny models of five parts of the uCore teaching kernel and its tools, with proofs of what they promise.
`dafny verify dfyconfig.toml` checks everything.

* **Skew heap** (`SkewTree`, `SkewHeap`; lab6/libs/skew_heap.h). The pure tree functions carry the order, the
  set of entries and the amortised cost; the class `Entry` carries `left`, `right` and `parent`, rewritten in
  place. A heap is ordered by any `comp` that is a total preorder answering -1 exactly for "before".
* **Page allocators** (`FreeList`, `LinkRing`, `PageFrames`, `PageAllocator`, `AllocatorRuns`, `DoubleHandout`;
  best fit and first fit of lab2).
  Pages and list entries are indices, the list head is one index more. `FreeList` is the abstract list of
  blocks, `LinkRing` the circular list, `PageFrames` the exact effect of each routine on links, sizes, flags and
  counter, the class `FreeArea` the code on arrays, `AllocatorRuns` whole runs of that code, and `DoubleHandout` a
  run of six requests in which a page is handed out twice.
* **SFS image builder** (`Sfs*`; lab8/tools/mksfs.c). `SfsModel` and `SfsSteps` hold the invariant that ties the
  block maps and cached index blocks of every inode to the sequence of blocks appended to it, `SfsReader` is the
  reader that serves as specification, the class `Builder` is the program, `SfsRuns` treats arbitrary
  interleavings of appends, and `SfsTree`, `SfsPlan`, `SfsWalk` and `SfsCreate` the walk over a directory tree.
  `SfsSpace`, `SfsVisits` and `SfsFound` say in blocks and bytes what space an image takes, when the program stops,
  and what a reader finds.
* **Formatter and number parser** (`CStrings`, `Numerals`, `Formats`, `Conversions`, `Printfmt`, and the laws in
  `NumeralLaws`, `FormatLaws` and `TextLaws`; lab8/libs/printfmt.c and `strtol`). `Formats` reads a format from left
  to right without moving back; `Printfmt` is the code with its moving pointer and its bounded buffer, proved to
  print the same; the laws say what is printed and read in terms of arguments, characters and powers of the base.
* **Two machines**: the walk over a flattened device tree (`DeviceTree`, `DeviceTreeWalk`, `DeviceTreeBlob`,
  `DeviceTreeLaws`; lab2/kern/driver/dtb.c, section 5.4 of the Devicetree Specification) and the interrupt brackets around the
  allocator (`Interrupts`, `Brackets`, `AllocatorOps`; lab3).  `Bits` holds the bitwise operations of the
  walk and of the image builder.

Where the code does not do what its comments or its shape suggest, the model follows the code:

* `best_fit_free_pages`, `default_free_pages` and `default_init_memmap` do not leave the insertion loop after the
  tail insertion, and the assertions on a range given back look at the first pages of free blocks only. `FreePages`,
  `RoundTripAsWritten` and `RunAsWritten` say exactly when that is harmless, for one call, for a round trip and for
  whole runs; `TailDivergence`, `TailHandedOutTwice` and `ReleaseOverlapping` say what happens otherwise,
  `FourRequestsDiverge` how soon, and `SixRequests` how soon the same pages are handed out twice.
  `FreePagesRepaired` is a repaired variant, not the code; what is proved only for it is marked so below.
* `alloc_cache_block` files every index block under the hash of 0. `AppendBlock` proves that the lookup that would
  miss it is never reached.
* `add_entry` writes 256 bytes of a 260-byte entry, so names are cut to 252 bytes; `EntryReadBack` states it as an
  equivalence.
* The flag '-' pads numbers with '-' on the left instead of on the right, a precision of zero is taken for the
  zero flag, and a negative number padded with blanks cannot be read back by `strtol`; `NumberReadBack` gives the
  exact condition for reading back, `PaddedNegativeLost` and `ZeroPrecisionIgnored` the failures.
* `strtol` accepts the prefix "0x" only, although its comment also promises "0X" (`CapitalPrefixIgnored`).
* `extract_memory_info` keeps a flag instead of a depth, so a node inside a memory node counts as memory
  (`NestedNodeTaken`) and what follows such a node does not (`RegBehindNodeLost`); `WalkRight` says for every tree
  exactly when the answer is right all the same.

## Model

| member | source | states |
|---|---|---|
| `SkewTree.MergeNodes` | lab6/libs/skew_heap.h:29-59 | the merge of two heaps has exactly the entries of both, and as many nodes as both together |
| `SkewTree.MergeProper` | lab6/libs/skew_heap.h:29-59 | if no entry occurs twice in two disjoint heaps, none does in their merge |
| `SkewTree.MergeOrdered` | lab6/libs/skew_heap.h:29-59 | merging two ordered heaps gives an ordered heap whose root is one of the two roots, for every comparison that is a total preorder |
| `SkewTree.RootIsMinimum` | lab6/libs/skew_heap.h:29-59 | the root of an ordered heap is before or level with every entry of it |
| `SkewTree.RemoveCorrect` | lab6/libs/skew_heap.h:69-85 | removing an entry at any depth deletes exactly that entry and leaves an ordered heap without repetitions |
| `SkewTree.MergeAmortisedSharp` | lab6/libs/skew_heap.h:29-59 | calls plus change of potential of a merge are bounded by a sum of three logarithms plus one |
| `SkewTree.MergeAmortised` | lab6/libs/skew_heap.h:29-59 | the same, stated as at most 3 floor(log2(n + 1)) + 1 for n entries in all |
| `SkewTree.RunAmortised` | lab6/libs/skew_heap.h:29-85 | every run of m inserts and root removals from the empty heap makes at most m (3 floor(log2(m + 1)) + 1) recursive calls |
| `SkewTree.DrainSorts` | lab6/libs/skew_heap.h:69-85 | taking out the root until the heap is empty yields every entry once, in nondecreasing order |
| `SkewHeap.Init` | lab6/libs/skew_heap.h:23-27 | an entry becomes a heap of its own |
| `SkewHeap.MergeEntries` | lab6/libs/skew_heap.h:29-59 | the in-place merge ends, links the result as the pure merge says with every child pointing to its parent, and makes the counted number of calls |
| `SkewHeap.InsertEntry` | lab6/libs/skew_heap.h:61-67 | a heap with a null root parent and right links goes to such a heap with one entry more |
| `SkewHeap.RemoveEntry` | lab6/libs/skew_heap.h:69-85 | any entry is taken out through its parent pointer alone; what is left is a heap, linked and ordered, of all the others |
| `SkewHeap.RemoveLinked` | lab6/libs/skew_heap.h:73-84 | redirecting one child pointer of the parent to the merged children gives the links of the heap without the entry |
| `FreeList.CanonicalUnique` | lab2/kern/mm/best_fit_pmm.c:143-201 | a sorted list without touching blocks is determined by the set of free pages |
| `FreeList.TotalCountsPages` | lab2/kern/mm/best_fit_pmm.c:60-61 | the sum of the block sizes is the number of free pages |
| `FreeList.ChosenUnique` | lab2/kern/mm/best_fit_pmm.c:120-126 | best fit (smallest, lowest on a tie) and first fit (lowest) each determine the block handed out |
| `FreeList.ChosenExists` | lab2/kern/mm/best_fit_pmm.c:120-126 | either policy has a block to choose whenever one is large enough |
| `FreeList.TakePages` | lab2/kern/mm/best_fit_pmm.c:128-139 | an allocation removes exactly the first n pages of the block from the free pages |
| `FreeList.TakeChain` | lab2/kern/mm/best_fit_pmm.c:128-139 | an allocation keeps the list sorted, and canonical if it was |
| `FreeList.GivePages` | lab2/kern/mm/best_fit_pmm.c:155-200 | a release adds exactly the range given back to the free pages |
| `FreeList.GiveChain` | lab2/kern/mm/best_fit_pmm.c:155-200 | a release of a range clear of the list keeps it sorted, and canonical if it was |
| `FreeList.TakeGiveRoundTrip` | lab2/kern/mm/best_fit_pmm.c:128-201 | repaired release: freeing what was just allocated restores the list, whether the block was split or taken whole (as written: PageFrames.RoundTripAsWritten) |
| `FreeList.NextSafe` | lab2/kern/mm/best_fit_pmm.c:107-201 | repaired release: each allocation, refusal or release keeps list, counter and partition, and an allocation hands out only pages nobody holds |
| `FreeList.RunSafe` | lab2/kern/mm/best_fit_pmm.c:69-201 | repaired release: in every state of every run from one init_memmap the list is canonical, nr_free is the number of free pages, and free and held pages partition the managed range; no page is handed out twice (as written: AllocatorRuns.RunAsWritten) |
| `FreeList.HistoryIndependence` | lab2/kern/mm/best_fit_pmm.c:69-201 | repaired release: two runs over the same range, under either policy, that leave the same pages held end in the same list and counter |
| `LinkRing.AddRing` | lab2/libs/list.h:53-82 | adding between two neighbours of a ring gives the ring with the new member between them |
| `LinkRing.DeleteRing` | lab2/libs/list.h:91-94 | deleting a member of a ring gives the ring without it |
| `LinkRing.AddDeleteRoundTrip` | lab2/libs/list.h:53-94 | deleting what was just added restores all links but those of the entry taken out |
| `LinkRing.ForwardUnique` | lab2/libs/list.h:121-133 | the next fields determine the members and their order |
| `LinkRing.AddTwiceLinks` | lab2/kern/mm/best_fit_pmm.c:163-171 | the loop without a break adds the block and then adds it to itself: next fields right, of the prev fields exactly its own wrong |
| `LinkRing.SelfLinked` | lab2/libs/list.h:141-158 | such links form no ring under any order, and deleting the block changes nothing |
| `LinkRing.ListInit` | lab2/libs/list.h:40-43 | an entry becomes an empty ring |
| `LinkRing.ListAddBetween` | lab2/libs/list.h:141-146 | exactly the four writes of __list_add, in their order |
| `LinkRing.ListAdd` | lab2/libs/list.h:53-56 | the entry goes behind the given one |
| `LinkRing.ListAddBefore` | lab2/libs/list.h:66-69 | the entry goes before the given one |
| `LinkRing.ListDel` | lab2/libs/list.h:91-94 | the neighbours point past the entry |
| `LinkRing.InsertInOrder` | lab2/kern/mm/best_fit_pmm.c:85-104 | the insertion loop with the break ends and links the block in at its place in address order |
| `LinkRing.InsertUnbroken` | lab2/kern/mm/best_fit_pmm.c:159-172 | the insertion loop without the break ends with the links described for it, at the tail and elsewhere |
| `PageFrames.LinkedWellFormed` | lab2/kern/mm/best_fit_pmm.c:69-105 | a range clear of every free block, marked and linked in, gives a well-formed state with that block in its place |
| `PageFrames.CarveWellFormed` | lab2/kern/mm/best_fit_pmm.c:128-139 | carving the first n pages off a block is the abstract allocation, and the state stays well formed |
| `PageFrames.MergesWellFormed` | lab2/kern/mm/best_fit_pmm.c:174-200 | the two merges around a block amount to coalescing it with the neighbours it touches |
| `PageFrames.ReleaseWellFormed` | lab2/kern/mm/best_fit_pmm.c:155-200 | insertion and the two merges are the abstract release, and the state stays well formed |
| `PageFrames.TailDivergence` | lab2/kern/mm/best_fit_pmm.c:163-190 | as written, with a nonempty list below base: forward ring right and sorted, base.prev == base, no merge fires, deleting base changes nothing, and the links are sound for no order |
| `PageFrames.AnswersUnique` | lab2/kern/mm/best_fit_pmm.c:107-126 | guard and scan determine the answer of alloc_pages on any list whose next fields are right |
| `PageFrames.TailHandedOutTwice` | lab2/kern/mm/best_fit_pmm.c:107-141 | after that a request answered with all of that block leaves links and sizes as they were; the same request is answered with the same page again if and only if the counter, back at its value before the release, is at least n, and otherwise it is refused |
| `PageFrames.ReleaseAsWritten` | lab2/kern/mm/best_fit_pmm.c:143-201 | on a range clear of the free blocks, free_pages as written ends with sound links if and only if the list is empty or a free block starts above base, and then it is the abstract release |
| `PageFrames.ReleaseOverlapping` | lab2/kern/mm/best_fit_pmm.c:146-200 | a range that overlaps a free block without holding its first page passes the assertions; with a block above base the links name overlapping blocks afterwards, merged or not, and are sound for no order |
| `PageFrames.WrittenSound` | lab2/kern/mm/best_fit_pmm.c:143-201 | on every range that passes the assertions: sound links if and only if the range is clear of every free block and the list is empty or a free block starts above base; then it is the abstract release |
| `PageFrames.RoundTripAsWritten` | lab2/kern/mm/best_fit_pmm.c:128-201 | as written: freeing what was just allocated restores the list if and only if something is left of the block, a higher block exists, or the block was the only one; otherwise the links are sound for no order |
| `PageAllocator.FreeArea.Init` | lab2/kern/mm/best_fit_pmm.c:63-67 | an empty free list and a zero counter |
| `PageAllocator.FreeArea.InitMemmap` | lab2/kern/mm/best_fit_pmm.c:69-105 | reserved pages become one free block, inserted in address order |
| `PageAllocator.FreeArea.ScanBest` | lab2/kern/mm/best_fit_pmm.c:113-126 | on any list whose next fields are right the scan ends and finds the smallest adequate block, the lowest on a tie, passing over blocks larger than the counter |
| `PageAllocator.FreeArea.ScanFirst` | lab2/kern/mm/default_pmm.c:102-110 | the scan ends and finds the lowest adequate block, or nothing exactly when there is none |
| `PageAllocator.FreeArea.Search` | lab2/kern/mm/best_fit_pmm.c:107-126 | guard and scan of either allocator give the answer defined for any list whose next fields are right |
| `PageAllocator.FreeArea.BestFitAlloc` | lab2/kern/mm/best_fit_pmm.c:107-141 | NULL exactly when no free block has n pages; otherwise the first n pages of the best-fit block, and the list and counter without them |
| `PageAllocator.FreeArea.FirstFitAlloc` | lab2/kern/mm/default_pmm.c:96-124 | NULL on exactly the same lists and sizes; otherwise the first n pages of the lowest adequate block |
| `PageAllocator.FreeArea.MergeBack` | lab2/kern/mm/best_fit_pmm.c:174-190 | the merge with the entry that prev names, whatever the links are |
| `PageAllocator.FreeArea.MergeOn` | lab2/kern/mm/best_fit_pmm.c:192-200 | the merge with the entry that next names, whatever the links are |
| `PageAllocator.FreeArea.FreePagesRepaired` | lab2/kern/mm/best_fit_pmm.c:143-201 | the repaired variant, which leaves the insertion loop at the tail too: always the abstract release |
| `PageAllocator.FreeArea.FreePages` | lab2/kern/mm/best_fit_pmm.c:143-201 | the code as written (also lab2/kern/mm/default_pmm.c), on every range that passes its assertions: exactly the defined effect; sound links if and only if the range is clear of the free blocks and the list was empty or a block lay above base, and then the abstract release |
| `AllocatorRuns.StepDetermined` | lab2/kern/mm/best_fit_pmm.c:107-201 | each request has exactly one outcome, under either policy (repaired release) |
| `AllocatorRuns.StepSafe` | lab2/kern/mm/best_fit_pmm.c:107-201 | repaired release: every request keeps the list canonical, the counter right and the pages partitioned |
| `AllocatorRuns.ReachedByHeld` | lab2/kern/mm/best_fit_pmm.c:69-201 | request sequences that leave the same pages held lead to the same list and counter; with AllocatorRuns.RunAsWritten this covers the code as written wherever its releases are harmless |
| `AllocatorRuns.Run` | lab2/kern/mm/best_fit_pmm.c:63-201 | repaired release: on the arrays, one init_memmap and any sequence of requests under either policy ends in the list, counter and held pages of the abstract allocator, which are canonical, right and a partition |
| `AllocatorRuns.RunAsWritten` | lab2/kern/mm/best_fit_pmm.c:63-201 | as written: the arrays follow the abstract allocator through the whole run if and only if every release finds an empty list or a free block above it; otherwise they follow it up to the first release that does not, after which the links are sound for no order |
| `AllocatorRuns.FourRequestsDiverge` | lab2/kern/mm/best_fit_pmm.c:163-171 | from any fresh range, two allocations that take all of it and two releases, the lower part first, reach that point at the fourth request |
| `DoubleHandout.TailTwice` | lab2/kern/mm/best_fit_pmm.c:107-201 | after a release as written behind the last block, two requests of its size are both answered with it if and only if the policy takes it and the other free pages are at least as many |
| `DoubleHandout.HandedOutTwice` | lab2/kern/mm/best_fit_pmm.c:69-201 | from one block of a + b pages, as one init_memmap leaves it: after those four requests, two requests for b pages are both answered with the page given back last if and only if the policy is best fit and a > b |
| `DoubleHandout.SixRequests` | lab2/kern/mm/best_fit_pmm.c:63-201 | the same run on the arrays: init, one init_memmap, and the six requests with the code as written hand out the same pages twice, for every a > b > 0 |
| `SfsBytes.WordsAt` | lab8/tools/mksfs.c:133-142 | 32-bit words laid out in memory order are read back |
| `SfsBytes.WordsBitAt` | lab8/tools/mksfs.c:327-331 | bit j % 32 of word j / 32 of the buffer is bit j % 8 of its byte j / 8 |
| `Bits.SetBitBit` | lab8/tools/mksfs.c:330 | or-ing a one shifted by t into a word sets bit t and leaves every other bit |
| `SfsBytes.EntryReadBack` | lab8/tools/mksfs.c:428-437 | a directory entry reads back with its number and its name cut to 252 bytes, so the whole name if and only if it has at most 252 |
| `SfsModel.SlotsDistinct` | lab8/tools/mksfs.c:406-422 | two blocks of a file behind the direct ones never share a slot of the same leaf |
| `SfsSteps.AddTopValid` | lab8/tools/mksfs.c:416-418 | allocating the double-indirect table keeps the invariant that ties pointers, table and leaves to the block count |
| `SfsSteps.AddTableLeafValid` | lab8/tools/mksfs.c:419 | so does allocating a leaf named in the table |
| `SfsSteps.StoreIndexedValid` | lab8/tools/mksfs.c:409-425 | so does entering a block in its leaf |
| `SfsSteps.StoreDirectValid` | lab8/tools/mksfs.c:406-408 | so does entering a direct block |
| `SfsSteps.AddInodeValid` | lab8/tools/mksfs.c:201-212 | so does making an inode |
| `SfsSteps.CreatedValid` | lab8/tools/mksfs.c:223-254 | create_sfs establishes it |
| `SfsSteps.IndexKeeps` | lab8/tools/mksfs.c:382-395 | a block number taken for an index block is in use as soon as the block is entered: none is lost |
| `SfsSteps.StoreKeeps` | lab8/tools/mksfs.c:397-426 | a number taken for data is in use once it is appended |
| `SfsSteps.InodeKeeps` | lab8/tools/mksfs.c:201-212 | a number taken for an inode is in use at once |
| `SfsReader.ImageResolves` | lab8/tools/mksfs.c:382-426 | on a flushed image block k of a file, looked up through direct, indirect and double-indirect entries, is the k-th number appended |
| `SfsReader.ImageInode` | lab8/tools/mksfs.c:307-310 | a flushed inode reads back with its size, type, link count and block count |
| `SfsReader.NoCollision` | lab8/tools/mksfs.c:173-190 | the root inode has block 1, everything else a number behind the bitmap and below next_ino, and no two inodes, index blocks or data blocks share one |
| `SfsReader.FreeBitsCounted` | lab8/tools/mksfs.c:317-334 | the number of ones in the bitmap is ninos - next_ino |
| `SfsBuilder.Builder.constructor` | lab8/tools/mksfs.c:223-254 | the state create_sfs leaves: root inode at block 1, first free number behind the bitmap |
| `SfsBuilder.Builder.AllocIno` | lab8/tools/mksfs.c:173-180 | the next number, with the count of unused blocks kept; fails exactly when none is left |
| `SfsBuilder.Builder.AllocCacheBlock` | lab8/tools/mksfs.c:182-190 | a zeroed index block with a new number, filed under the hash of the argument 0 |
| `SfsBuilder.Builder.SearchCacheBlock` | lab8/tools/mksfs.c:192-199 | a block of that number in its chain if there is one |
| `SfsBuilder.Builder.UpdateCache` | lab8/tools/mksfs.c:382-395 | allocates, looks up or keeps, exactly when the code does |
| `SfsBuilder.Builder.AppendBlock` | lab8/tools/mksfs.c:397-426 | succeeds exactly when the file is below its limit and the index blocks it needs are left; the number becomes the last block; the hash lookup and its assertion are never reached |
| `SfsBuilder.Builder.AppendNew` | lab8/tools/mksfs.c:522-524 | number taken, block written, number appended: exact success condition, exact space taken, every other file unchanged |
| `SfsBuilder.Builder.SearchCacheInode` | lab8/tools/mksfs.c:214-221 | agrees with the map from host number to the inode made last for it |
| `SfsBuilder.Builder.AllocCacheInode` | lab8/tools/mksfs.c:201-212 | a zeroed inode under the next number; fails exactly when none is left |
| `SfsBuilder.Builder.WriteBlock` | lab8/tools/mksfs.c:287-300 | the block on the image is the buffer completed with zeros |
| `SfsBuilder.Builder.SetBits` | lab8/tools/mksfs.c:327-331 | the loop over 32-bit words sets exactly the bits from start up to end |
| `SfsBuilder.Builder.BitmapBlock` | lab8/tools/mksfs.c:318-332 | the bits of one bitmap block are those of the blocks from next_ino up to ninos |
| `SfsBuilder.Builder.WriteBitmap` | lab8/tools/mksfs.c:315-334 | bit b of the map is 1 if and only if next_ino <= b < ninos, and only bitmap blocks are written |
| `SfsBuilder.Builder.Close` | lab8/tools/mksfs.c:312-349 | afterwards every cached inode and index block is on the image, nothing stored before is disturbed, and super block and bitmap tell what is free |
| `SfsRuns.IndexBlocksStep` | lab8/tools/mksfs.c:382-426 | appending takes exactly the index blocks that the longer file has and the shorter has not |
| `SfsRuns.FileReadBack` | lab8/tools/mksfs.c:382-426 | every block of every file reads back from the flushed image |
| `SfsRuns.LaterLarger` | lab8/tools/mksfs.c:173-180 | the space taken and the file sizes only grow during a run |
| `SfsRuns.Build` | lab8/tools/mksfs.c:302-426 | for any interleaving of new inodes and appends: stopped if and only if the final contents do not fit the image or a file exceeds its limit, and otherwise every block of every file reads back from the finished image, the last blocks are free exactly as counted, and every other block is needed |
| `SfsTree.RepresentsKept` | lab8/tools/mksfs.c:466-514 | what is stored below a directory is not disturbed by further work in it |
| `SfsTree.EntryAddedLinks` | lab8/tools/mksfs.c:428-437 | add_entry keeps every link count equal to the number of entries naming the inode |
| `SfsTree.InodeAddedLinks` | lab8/tools/mksfs.c:201-212 | so does making an inode |
| `SfsPlan.FileSizeMonotone` | lab8/tools/mksfs.c:397-426 | a longer file takes at least as much space |
| `SfsWalk.AddEntry` | lab8/tools/mksfs.c:428-437 | one more block in the directory that reads as the entry, one more link for the inode; exact success condition |
| `SfsWalk.OpenFile` | lab8/tools/mksfs.c:516-530 | the inode holds the content in blocks of 4096 bytes with only the last one short; succeeds exactly when the file is small enough and fits |
| `SfsWalk.FindFile` | lab8/tools/mksfs.c:449-455 | the inode of that host file: found again without storing anything if it was met before, otherwise copied |
| `SfsWalk.AddFile` | lab8/tools/mksfs.c:449-457 | the directory gains the entry, and the inode entered is that of the host file and holds its content; exact success condition and space |
| `SfsWalk.MakeLink` | lab8/tools/mksfs.c:532-542 | a new inode holds the target; a target of 4096 bytes stops the program |
| `SfsWalk.AddLink` | lab8/tools/mksfs.c:459-464 | the directory gains the entry for it |
| `SfsWalk.MakeDir` | lab8/tools/mksfs.c:439-445 | a new directory holds its entries; one met before stops the program |
| `SfsWalk.AddDir` | lab8/tools/mksfs.c:439-447 | the directory gains the entry for it and one link |
| `SfsWalk.OpenDir` | lab8/tools/mksfs.c:466-514 | the directory lists itself, its parent and in order everything not passed over, recursively; link counts are 2 plus subdirectories; succeeds exactly when the plan of the tree says so, and takes exactly that much |
| `SfsCreate.RepresentsShows` | lab8/tools/mksfs.c:312-349 | what the inodes hold, a reader of the finished image sees: types, sizes, contents, names and link counts of the whole tree |
| `SfsCreate.ImageLinks` | lab8/tools/mksfs.c:428-437 | on the finished image the link count of every inode is the number of directory entries naming it, in 16 bits |
| `SfsCreate.HardLinksShare` | lab8/tools/mksfs.c:449-457 | anywhere in the tree two names of regular files stand for the same inode of the finished image if and only if they are links to the same host file, so each file is stored once |
| `SfsCreate.CreateImg` | lab8/tools/mksfs.c:544-559 | stopped if and only if an entry visited is refused or the image, of at most 524288 blocks, is too small for all of them; otherwise the image shows the tree with the host number of every inode, its link counts and directory sizes are right, super block and bitmap show exactly the space the tree does not take, and every block marked used is the super block, the root, one the bitmap needs, or belongs to an inode |
| `SfsSpace.BitmapFits` | lab8/tools/mksfs.c:232 | the bitmap takes as many blocks of 32768 bits as the image needs, and not one more |
| `SfsSpace.UsableSmaller` | lab8/tools/mksfs.c:227-231 | of an image file the first 524288 blocks are used, or all it has |
| `SfsSpace.PlacedReached` | lab8/tools/mksfs.c:173-212 | every number that has an owner is met by a reader who starts from the inodes: as an inode, a data block, the indirect block, the table of leaves or a leaf |
| `SfsSpace.AllNeeded` | lab8/tools/mksfs.c:173-180 | no block is lost: every number below next_ino is the super block, the root, a block the bitmap needs, or met by the reader |
| `SfsVisits.RestComes` | lab8/tools/mksfs.c:466-542 | in the order of visits: the program stops exactly at a name of more than 255 bytes, a target of 4096 or more, a file of more than 128 megabytes, a directory of 32768 blocks, or a directory met before; otherwise the tree takes the sum of what each visit takes |
| `SfsFound.FileByteFound` | lab8/tools/mksfs.c:516-530 | byte j of a file stands in byte j % 4096 of its block j / 4096, and the file has no more blocks than its size takes |
| `SfsFound.EntriesFound` | lab8/tools/mksfs.c:466-514 | a directory has an entry "." for itself, ".." for its parent, one for each object stored, in order, under the first 252 bytes of its name, and no other |
| `CStrings.WrapStep` | lab8/libs/string.c:263 | 64-bit arithmetic on wrapped values gives the wrapped value of the exact result |
| `Numerals.DigitsRead` | lab8/libs/printfmt.c:53-69 | the digits stand for the number and have no leading zero |
| `Numerals.DigitsLength` | lab8/libs/printfmt.c:53-69 | there are as few digits as possible |
| `Numerals.PaddedShape` | lab8/libs/printfmt.c:53-69 | printnum emits exactly max(width, digits) characters, pad characters first |
| `Numerals.ReadDigits` | lab8/libs/string.c:244-265 | the longest run of digits of the base, and its value cut to 64 bits |
| `Numerals.Strtol` | lab8/libs/string.c:215-271 | blanks, sign, prefix and the longest run of digits: value cut to 64 bits and end position |
| `Numerals.NumberReadBack` | lab8/libs/string.c:215-271 | strtol returns the number printed and ends just behind it if and only if it fits a long, the text behind it cannot be taken for part of it, and the padding is one strtol can pass |
| `Numerals.PaddedNegativeLost` | lab8/libs/string.c:220-231 | a negative number padded with blanks is read as 0, ending behind the sign |
| `Numerals.CapitalPrefixIgnored` | lab8/libs/string.c:234-242 | "0X" is no prefix: the reading ends behind the zero, in base 16 and in base 0 |
| `NumeralLaws.DigitsSpelt` | lab8/libs/printfmt.c:53-69 | character by character: each digit printed is the number divided by the power of the base it stands for, reduced by the base, written 0 to 9 and a to f |
| `NumeralLaws.StrtolReads` | lab8/libs/string.c:215-271 | for base 0 and bases 2 to 36 and every string: behind blanks, tabs, one sign and the prefix the base admits, strtol takes digits and letters of either case up to the first that is none, ends there, and returns the sum of the digits times powers of the base, modulo 2^64 |
| `NumeralLaws.BaseZeroReadBack` | lab8/libs/string.c:225-242 | in base 0 a number that fits a long is read back from its decimal digits, from "0" and its octal digits, and from "0x" and its hexadecimal digits, with and without a minus sign |
| `NumeralLaws.PlusIgnored` | lab8/libs/string.c:225-228 | a plus sign in front of a number changes nothing but the end position, which is one further on |
| `Formats.PlainText` | lab8/libs/printfmt.c:143-148 | text without '%' is emitted as it stands |
| `Formats.LiteralFallback` | lab8/libs/printfmt.c:287-292 | an unrecognised or truncated escape is emitted character for character |
| `Formats.RewindHarmless` | lab8/libs/printfmt.c:288-292 | going back to just behind the '%' prints the same as going on from where the escape broke off |
| `Formats.FormatsCompose` | lab8/libs/printfmt.c:142-295 | two formats one after the other print what each prints, if the first leaves no escape open |
| `Conversions.StringFieldShape` | lab8/libs/printfmt.c:226-241 | a string field is max(width, characters let through) wide, with the text at the side the flag asks for |
| `Printfmt.Sink.Put` | lab8/libs/printfmt.c:309-315 | the character is counted, and stored if there is room; the buffer always holds a prefix of the whole output |
| `Printfmt.Strnlen` | lab8/libs/string.c:33-40 | the smaller of the length of the string and the bound |
| `Printfmt.PrintNum` | lab8/libs/printfmt.c:53-69 | puts the padded digits of the number, first digit first |
| `Printfmt.PutString` | lab8/libs/printfmt.c:221-242 | puts the string field |
| `Printfmt.PutSigned` | lab8/libs/printfmt.c:244-252 | puts the sign in front of padding and digits |
| `Printfmt.PutError` | lab8/libs/printfmt.c:207-219 | puts the message of a known code and "error N" for any other |
| `Printfmt.Convert` | lab8/libs/printfmt.c:202-285 | puts what the conversion prints for its argument and field, and takes an argument for every conversion but %% |
| `Printfmt.ReadWidth` | lab8/libs/printfmt.c:168-177 | a decimal number cut to an int, and the position behind it |
| `Printfmt.ReadModifiers` | lab8/libs/printfmt.c:155-200 | all modifiers of an escape and the first character that is none |
| `Printfmt.Rewind` | lab8/libs/printfmt.c:290-291 | stops just behind the '%' of the same escape and never before it |
| `Printfmt.VPrintfmt` | lab8/libs/printfmt.c:135-295 | ends on every format and puts exactly what the format stands for |
| `Printfmt.Vsnprintf` | lab8/libs/printfmt.c:347-358 | with n the smaller of the length and size - 1: the first n characters of the output, a NUL at n, nothing else touched, the full length returned; -3 for no buffer or size 0 |
| `FormatLaws.NumberFormatPrints` | lab8/libs/printfmt.c:151-200 | pad flag, decimal width and any number of l in the format are taken at their value, for every conversion |
| `FormatLaws.NumberPrints` | lab8/libs/printfmt.c:76-105 | %d prints the argument word as a signed number of 32 bits, or of 64 with an l, and %u, %o and %x as an unsigned one, sign in front of padding and digits |
| `FormatLaws.PointerPrints` | lab8/libs/printfmt.c:266-272 | %p prints 0x and the 64 bits of its argument in hexadecimal, the prefix in front of the padding |
| `FormatLaws.NumberBack` | lab8/libs/printfmt.c:244-280 | for %d, %u, %o and %x with any flag, width and size: strtol in that base gives back the argument as the conversion took it if and only if number, padding and following text allow it |
| `FormatLaws.PlainNumberBack` | lab8/libs/printfmt.c:244-280 | with neither flag nor width it gives it back if and only if it is below 2^63 |
| `FormatLaws.ConversionThenRest` | lab8/libs/printfmt.c:202-285 | every conversion takes one argument and %% takes none: what follows prints as it would with the remaining arguments |
| `FormatLaws.StarPrints` | lab8/libs/printfmt.c:179-195 | a width given by * is the next argument as an int; one that is not positive is no width |
| `TextLaws.CharacterPrints` | lab8/libs/printfmt.c:203-205 | %c prints the low byte of its argument whatever flags and width say |
| `TextLaws.PercentPrints` | lab8/libs/printfmt.c:283-285 | %% prints a percent sign whatever flags and width say |
| `TextLaws.UnknownPrints` | lab8/libs/printfmt.c:287-292 | an escape with any character that is neither a conversion nor a modifier is printed as it stands and takes no argument |
| `TextLaws.StringPrints` | lab8/libs/printfmt.c:221-242 | for every flag, width and precision: %s prints its text, or "(null)" for a null pointer, up to a positive precision, at the right of its field behind the pad character or at the left before blanks, with # showing ? for what is not printable |
| `TextLaws.StarPrecision` | lab8/libs/printfmt.c:179-195 | a precision given by * cuts the text at the next argument as an int, at zero too; a negative one cuts nothing |
| `TextLaws.ZeroPrecisionIgnored` | lab8/libs/printfmt.c:163-165 | a precision of zero written in the format cuts nothing, its digit being taken for the zero flag |
| `TextLaws.ErrorPrints` | lab8/libs/printfmt.c:18-41 | %e prints the message of a known code and "error N" for any other, the same for a code and its negative |
| `TextLaws.ErrorByFormats` | lab8/libs/printfmt.c:207-219 | what %e prints is what "%s" prints for the message of a known code, and what "error %d" prints for any other |
| `DeviceTree.Swapped32` | lab2/kern/driver/dtb.c:29-32 | the swapped little-endian load of a word is its big-endian value |
| `DeviceTree.Swapped64` | lab2/kern/driver/dtb.c:34-37 | the swapped little-endian load of a double word is its big-endian value |
| `Bits.OrBit` | lab2/kern/driver/dtb.c:29-37 | each bit of the bitwise or is the or of the two bits |
| `Bits.OrDisjoint` | lab2/kern/driver/dtb.c:29-37 | the bitwise or that puts the bytes together is the sum of its operands if and only if no bit is set in both |
| `DeviceTree.SwapJoined` | lab2/kern/driver/dtb.c:34-37 | swapping the bytes of a double word swaps its halves and the bytes of each |
| `DeviceTreeWalk.ReadDouble` | lab2/kern/driver/dtb.c:81-82 | a double word of the blob |
| `DeviceTree.SwapTwice` | lab2/kern/driver/dtb.c:29-32 | swapping twice changes nothing |
| `DeviceTreeWalk.EnterNode` | lab2/kern/driver/dtb.c:54-67 | the flag is raised exactly by names whose first six octets are those of "memory", and the position is that behind the padded name |
| `DeviceTreeWalk.ReadProperty` | lab2/kern/driver/dtb.c:73-91 | either the range of a long enough reg in a memory node, or the position behind the padded value |
| `DeviceTreeWalk.ExtractMemoryInfo` | lab2/kern/driver/dtb.c:40-101 | the pointer stays on token boundaries, the loop ends, and the result is that of the token stream, unknown tokens included |
| `DeviceTreeWalk.ScanItems` | lab2/kern/driver/dtb.c:50-100 | on the tokens of any tree the scan gives the first long enough reg at which the flag of the walk is up |
| `DeviceTreeWalk.SamePlace` | lab2/kern/driver/dtb.c:48-84 | the walk stops at the right property if and only if before every reg on which flag and node name disagree there is one on which both say memory |
| `DeviceTreeWalk.WalkRight` | lab2/kern/driver/dtb.c:40-101 | for every tree: the result is the first reg of at least 16 bytes, in pre-order, of a node whose name begins "memory", if and only if that condition holds or the property taken by mistake holds the same range |
| `DeviceTreeWalk.ChildlessAgrees` | lab2/kern/driver/dtb.c:54-71 | if no node lies in a memory node, flag and name never disagree |
| `DeviceTreeWalk.MemoryAnswer` | lab2/kern/driver/dtb.c:54-84 | octet by octet: nothing is taken from nodes whose first six octets are not "memory" or that hold no "reg" of at least 16 bytes, and the first memory node with such a property before any inner node gives its range |
| `DeviceTreeWalk.MemoryNodeFound` | lab2/kern/driver/dtb.c:58-61 | whatever stands behind "memory" in its name, a childless node with a "reg" of at least 16 bytes is such a node |
| `DeviceTreeWalk.FindMemory` | lab2/kern/driver/dtb.c:40-101 | on the bytes of any tree: the result of the scan, right exactly under that condition, right for every tree whose memory nodes are childless, -1 for a tree that holds no memory range, and otherwise the range of the first memory node that has one |
| `DeviceTreeWalk.NestedNodeTaken` | lab2/kern/driver/dtb.c:54-66 | one way to fail: the reg of a node inside a memory node is returned although no memory node has one |
| `DeviceTreeWalk.RegBehindNodeLost` | lab2/kern/driver/dtb.c:68-70 | the other: a reg behind a node inside its memory node is lost |
| `DeviceTreeBlob.EncodedLaid` | lab2/kern/driver/dtb.c:49-98 | a structure block written token by token is laid out token by token |
| `DeviceTreeBlob.WalkEncoded` | lab2/kern/driver/dtb.c:40-101 | the same for every blob written for a tree |
| `DeviceTreeLaws.TokenOctets` | lab2/kern/driver/dtb.c:21-26 | the octets of every token: words 1, 2, 3, 4 and 9 in big-endian order, names up to their NUL, length and name offset before the value; any other word is no token |
| `DeviceTreeLaws.NumberOctets` | lab2/kern/driver/dtb.c:80-82 | a number in reg is eight octets, the first weighing most |
| `DeviceTreeLaws.UnknownEnds` | lab2/kern/driver/dtb.c:94-98 | a word that is no token ends the walk as FDT_END does |
| `Interrupts.StepKeeps` | lab3/kern/sync/sync.h:8-21 | every step of the machine, interrupts between reading and clearing SIE included, keeps the invariant of the brackets |
| `Interrupts.BodiesExclude` | lab3/kern/mm/pmm.c:50-82 | in every run at most one allocator body is under way, it is the innermost bracket of the running frame, and SIE is clear |
| `Interrupts.BodiesAtomic` | lab3/kern/mm/pmm.c:50-82 | whenever no body is under way, shared state and results are those of the completed bodies run one after the other |
| `Interrupts.BracketsRestore` | lab3/kern/sync/sync.h:8-21 | a bracket that is closed leaves SIE as it was when it was opened, at any depth of nesting |
| `Interrupts.BracketEnds` | lab3/kern/sync/sync.h:8-21 | progress: wherever the innermost bracket is, its own steps, as many as are left, are possible one after the other and close it, with SIE as on opening and its body, run as if alone, last in the history |
| `Interrupts.CallEnds` | lab3/kern/mm/pmm.c:48-82 | so code that may open a bracket gets any allocator body done, whatever SIE is |
| `Interrupts.AllEnd` | lab3/kern/mm/pmm.c:48-82 | from every state of every run all brackets can be closed and all handlers can return; no bracket waits for another, and the bodies that were open are done behind those done before |
| `Brackets.Hart.IntrSave` | lab3/kern/sync/sync.h:8-14 | returns the old SIE and leaves it clear |
| `Brackets.Hart.IntrRestore` | lab3/kern/sync/sync.h:16-20 | sets SIE if the flag says so |
| `Brackets.AllocPages` | lab3/kern/mm/pmm.c:48-59 | first-fit allocation with SIE as it was |
| `Brackets.FreePages` | lab3/kern/mm/pmm.c:61-69 | release as written with SIE as it was, on every range that passes the assertions: exactly the defined effect, sound links if and only if the range was clear of the free blocks and the list was empty or a block lay above base |
| `Brackets.NrFreePages` | lab3/kern/mm/pmm.c:71-82 | the number of free pages, with SIE as it was |
| `AllocatorOps.AllocBodyWorks` | lab3/kern/mm/pmm.c:50-59 | the body of alloc_pages as steps on links, sizes, flags and counter, run undisturbed, is a step of the abstract allocator and answers with the page handed out |
| `AllocatorOps.FreeBodyWorks` | lab3/kern/mm/pmm.c:62-69 | the body of free_pages as written, run undisturbed, is a step of the abstract allocator if and only if the list is empty or a free block lies above the range; otherwise its links are sound for no order |
| `AllocatorOps.RepairedBodyWorks` | lab3/kern/mm/pmm.c:62-69 | the repaired body always is such a step |
| `AllocatorOps.CountBodyWorks` | lab3/kern/mm/pmm.c:73-82 | the body of nr_free_pages, run undisturbed, changes nothing and answers with the number of managed pages that nobody holds |
| `AllocatorOps.InterruptedSafe` | lab3/kern/mm/pmm.c:48-82 | under any interleaving of interrupts and handlers that allocate, release and count, if callers give back only what is held (and, as written, each release finds an empty list or a block above it), then whenever no body is under way the links are well formed, the free list canonical, the counter right, and free and held pages partition the range; with the repaired release without the proviso |
| `AllocatorOps.InterruptedDisjoint` | lab3/kern/mm/pmm.c:48-82 | in such runs no allocation is answered with a page that is still held |
| `AllocatorOps.InterruptedCount` | lab3/kern/mm/pmm.c:71-82 | in such runs every nr_free_pages answers with the number of managed pages not held at its place among the completed bodies |

## Left out

- Pointers: pages, list entries, cached inodes and cached index blocks are indices; `struct Page` layout and `to_struct` arithmetic are not modelled.
- Integer widths: `nr_free`, block sizes and the length counters of the formatter are unbounded; `strtol` and the widths in a format wrap at 64 and 32 bits, and link counts at 16.
- PageAllocator.FreeArea.InitMemmap: models the best-fit form; default_init_memmap differs only in the loop covered by LinkRing.InsertUnbroken.
- FreeList.RunSafe: is about one managed range.
- AllocatorRuns.Run: a release of pages that are not all held, which the code leaves to its callers, is not made.
- AllocatorRuns.RunAsWritten: the same; what the code does after the first release that leaves unsound links is followed for two answers only, in PageFrames.TailHandedOutTwice and DoubleHandout.
- AllocatorOps.InterruptedSafe: scan, carving, insertion and each merge are one step each; nothing is claimed about bodies that run after the links have become unsound.
- Printfmt.PutError: negates the most negative int without wrapping around; in C that negation is undefined.
- Printfmt.Vsnprintf: characters are stored as they are put; codes above 255 do not occur in C strings.
- Printfmt.VPrintfmt: output goes to the buffer of sprintputch; other putch functions see the same characters. Arguments behind the last one passed are arbitrary.
- SfsBuilder.Builder.AllocCacheBlock: only with argument 0, the only one in the program.
- SfsCreate.CreateImg: the source tree is immutable and finite, its regular files have host numbers other than 0 (the number under which the root is filed), and a host number of a regular file belongs to nothing else; host failures other than those of the tree itself stop the program and are not modelled.
- SfsRuns.Build: the super block label is any 32 bytes.
- DeviceTreeWalk.ExtractMemoryInfo: the blob lies at a multiple of 4 and holds its tokens and strings; reads outside it are not modelled, nor are the messages of dtb_init.
- Interrupts.StepKeeps: one processor; handlers return with SIE as the trap found it, and code outside brackets may set and clear SIE; exceptions and nested traps inside a body are not modelled.
- SkewHeap.RemoveEntry: forgets the links of the entry taken out, as the code leaves them stale.
- Not modelled because they would only add easy members: `memmove` and the other string routines, `list_del_init`, `basic_check` and the other checks, `page_init`, `rand`, hash functions of the kernel, `readline`, trap dispatch, user programs.
