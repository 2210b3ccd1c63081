# A verified model of the image builder and the library routines of the lab kernel

The project models, in Dafny, the parts of the lab 8 tree that carry the most state and arithmetic:

- **mksfs** (`lab8/tools/mksfs.c`), which packs a host directory into an SFS image. Modules `Bytes`, `FreeMap` and
  all modules whose names begin with `Sfs`. `SfsBuilder.Builder` is `struct sfs_fs`; its methods are the functions of the
  program, and `SfsImage.CreateImg` runs them from `create_sfs` to `close_sfs`. An independent decoder
  (`SfsDecode.Decode`) reads a tree back from nothing but the bytes of the image. `SfsPacking` says in plain numbers
  which entries are packed and what they cost, `SfsLayout` where on the disk everything is.
- **The skew heap with parent pointers** (`lab8/libs/skew_heap.h`). `SkewHeapNodes` works on the linked entries in
  place; `SkewHeap` holds the shapes they form, heap order and the amortised analysis.
- **The formatter and number parser** (`lab8/libs/printfmt.c`, `strtol` in `lab8/libs/string.c`). `Numerals` has the
  text of numbers and its inverse; `PrintFmt` has the meaning of a format and the state machine that produces it.
  `FormatLaws` spells out what single escapes print, and `ReadLaws` what `strtol` reads character by character.
- **The random number generator** (`lab8/libs/rand.c`), the **ring list** (`lab8/libs/list.h`), **memmove**
  (`lab8/libs/string.c`) and the shell's in-place **tokenizer** (`gettoken` in `lab8/user/sh.c`): modules `Rand`,
  `RingList`, `Memory` and `Shell`. `CInts` has the integers of C.

`dafny verify dfyconfig.toml` checks everything.

## The main results

- *Image round trip.* For every host tree and every size of image file, `CreateImg` succeeds if and only if the tree
  fits by the block count of `SfsPlan.PlanDir`; and then the image decodes, at every sufficient depth, to the host's
  tree: order of entries, types, contents, link targets, correct `.` and `..`. Hard links to one file have one inode and
  different files have different ones. Every inode that directory entries reach from the root has, in a 16-bit field,
  the number of entries in such directories that name it (`SfsCounts.LinkCountFits`: that number itself if and only if
  it is below 65536); the free map is exact, the superblock agrees with it, and exactly the blocks below the allocation
  mark are written.
- *Block map.* In every run of appends interleaved over any number of files, each file resolved through the direct,
  indirect and double-indirect tables is the list of the blocks appended to it, and the pointers that `update_cache`
  gets are current, so that its search branch is never taken. All uses of blocks are pairwise distinct.
- *Skew heap.* Every run of insertions and removals of arbitrary members keeps one tree with correct parent pointers,
  in heap order, of exactly the members; m operations on a heap that never has more than n members cost at most
  m(5 log2(n + 1) + 3) calls of `skew_heap_merge`.
- *Formatter.* For every format `vprintfmt` ends, reads nothing behind the NUL and emits what the format means, although
  an unknown escape moves its cursor back; `vsnprintf` stores exactly the part that fits. `strtol` returns the low 64
  bits of the number that the text spells, and undoes the numeric conversions exactly under the conditions stated: the
  number is at most LONG_MAX, and neither blanks behind a sign or prefix nor dashes that pad it are in the way.
- *Ring list.* Every run of insertions, deletions and deletions with initialisation, of any members, keeps one ring that
  holds what the same run leaves in a sequence, and beside it a ring of one for each entry taken out and initialised.
- *memmove.* Both directions are right where they are used, and the forward one is right nowhere else.
- *Tokenizer.* A line has exactly one division into tokens; draining it in place yields that division and leaves every
  word as a C string.
- *Generator.* Its period is 2^48 from every state, every state is visited, and the values returned are exactly
  1 to RAND_MAX.

## Where the code and its documentation differ

The model follows the code.

- `add_entry` admits names of 255 bytes but writes 256 bytes of a 260-byte record, so that a name survives only up to
  252 bytes: `SfsImage.NamesSurvive` gives the exact condition and `SfsImage.LongNameIsCut` an instance. Two names of
  one directory can thereby become equal: `SfsImage.NamesStayDistinct` says exactly when.
- `alloc_cache_block` chains a new block in the bucket of its parameter, 0, and not of its number. Searching would fail
  for a block whose number hashes differently (`SfsAppend.SearchFindsOnlyBucketZero`, and for instance
  `SfsRuns.SearchMisses`); appends never search.
- `rand` promises [0, RAND_MAX]. The argument of `do_div` is not parenthesised (`lab8/libs/riscv.h:237`), so what is
  computed is a remainder modulo RAND_MAX, plus 1: `Rand.OutputRange`.
- A negative %d padded with blanks has its blanks behind the sign, and `strtol` then stops at once:
  `Numerals.SignedRoundTrip` gives the exact condition and `Numerals.BlankAfterSign` an instance.
- `strtol` documents a prefix "0x" or "0X" (`lab8/libs/string.c:211`), but at 0X it stops behind the 0 and returns 0:
  `Numerals.HexPrefix` gives the exact condition and `Numerals.UpperCasePrefix` an instance.
- `strtol` does not detect overflow. A pointer of the kernel, printed with %p and read back, is a negative `long`:
  `Numerals.PointerRoundTrip` gives the exact condition and `Numerals.KernelAddress` an instance. Section 7.22.1.4 of
  ISO/IEC 9899:2011 would have LONG_MAX returned.
- The flag "to pad on the right" (`lab8/libs/printfmt.c:158`) does so for strings; a number it pads on the left, with
  dashes: `FormatLaws.DashFlag`.
- `vsnprintf` returns -E_INVAL for size 0, unlike section 7.21.6.12 of ISO/IEC 9899:2011.

## Conventions

- A run of mksfs that reaches `bug` or a failing `assert` ends the program; the operation then returns `ok == false`
  and nothing is claimed about the state. Success is stated as an equivalence throughout.
- A cached inode or block (a malloc'ed record) is a row of a map, keyed by the block number it was allocated with; 0
  stands for NULL. Hash chains are sequences of such numbers, newest first.
- A regular file is the sequence of the results of its `read` calls, kept by host inode number in a map `files`, so
  that hard links share them. A directory is the sequence of its entries in the order of `readdir`.
- The memory that `vsnprintf`, `memmove` and `gettoken` write is an array; pointers into it are positions.
- Variable arguments are a function from positions to 64-bit words, each with the string it points to if it is used
  as one. Numbers printed by %d, %u, %o, %x and %p have the widths of the target (32 or 64 bits).
- Signed arithmetic wraps around in two's complement, as the instructions of the target do: `CInts.Int32` and
  `CInts.Int64` are what an `int` and a `long` hold. This covers the value of `strtol`, numbers spelled in a format, the
  countdown of a width, the magnitude of the least number under %d, and the count of `vsnprintf`.

## Model

| member | source | states |
|---|---|---|
| `SfsImage.CreateImg` | lab8/tools/mksfs.c:544-559 | a run succeeds exactly if the image has room for its map and for the plan of the tree; then the image holds the tree, link counts that are exact over all inodes reachable from the root, free map and superblock |
| `SfsImage.RoundTrip` | lab8/tools/mksfs.c:466-559 | any flushed state with a completely opened root is such an image |
| `SfsImage.NamesSurvive` | lab8/tools/mksfs.c:428-437 | the tree read back has the host's names at all levels if and only if no packed name exceeds 252 bytes |
| `SfsImage.NamesStayDistinct` | lab8/tools/mksfs.c:428-437 | with different host names, the names in the image of a directory are different if and only if no two packed ones agree on their first 252 bytes |
| `SfsImage.LongNameIsCut` | lab8/tools/mksfs.c:431-434 | a name of 253 bytes is admitted and comes back shortened |
| `SfsImage.SuperReads` | lab8/tools/mksfs.c:150-156 | magic, number of blocks and number of free blocks are read back from the superblock |
| `SfsPacking.EntryPacked` | lab8/tools/mksfs.c:475-511 | one more host entry adds nothing to the image if its name begins with byte 46 or its type is special, and else adds itself at the end, with at most 252 bytes of its name |
| `SfsPacking.AllPacked` | lab8/tools/mksfs.c:475-511 | without such names and types, the image has all entries, one for one and in their order |
| `SfsPacking.SkippedCosts` | lab8/tools/mksfs.c:480-485 | a hidden entry needs no block, whatever the length of its name; a special one neither, up to 255 bytes; any other name beyond 255 bytes ends the run |
| `SfsPacking.FileCosts` | lab8/tools/mksfs.c:449-457 | one block for the entry, and when the file is first met an inode, its blocks and their tables besides; more than 32768 blocks, or a short read before the last, end the run |
| `SfsPacking.LinkCosts` | lab8/tools/mksfs.c:459-464 | three blocks; a target of 4096 bytes or more ends the run |
| `SfsPacking.DirCosts` | lab8/tools/mksfs.c:439-447 | four blocks, the needs of its packed entries and the tables; a directory met before, or more than 32766 packed entries, end the run |
| `SfsPacking.PackableExact` | lab8/tools/mksfs.c:232-254 | the condition of success in numbers: superblock, root, map, dot entries, tables and entries of the root do not exceed the blocks of the image |
| `SfsPacking.CapacityExact` | lab8/tools/mksfs.c:225-231 | below 2 GB the whole blocks of the image file are used, from there to 16 TB 524288, and the count is taken modulo 2^32 |
| `SfsPacking.EntryAccepted` | lab8/tools/mksfs.c:476-500 | what is asked of host entries: no NUL in a name, and host numbers that tell regular files from others |
| `SfsPacking.ReadsAccepted` | lab8/tools/mksfs.c:519-526 | what is asked of reads: 1 to 4096 bytes each |
| `SfsLayout.FormatNumbers` | lab8/tools/mksfs.c:110-125 | magic number, places, types and limits as literals: 2 GB to an image and 128 MB to a file |
| `SfsLayout.InodeLayout` | lab8/tools/mksfs.c:134-142 | the offset and width of each field of an inode |
| `SfsLayout.BlockPlaces` | lab8/tools/mksfs.c:406-422 | the byte offset and the table at which block k of a file is named, at all three levels |
| `SfsLayout.EntryLayout` | lab8/tools/mksfs.c:168-171 | an entry block is a 32-bit inode number and a name up to its first NUL |
| `SfsLayout.FreeBitPlace` | lab8/tools/mksfs.c:318-332 | the bit of block b is bit b % 8 of byte b % 32768 / 8 of map block 2 + b / 32768 |
| `SfsLayout.HashExact` | lab8/tools/mksfs.c:36-56 | a bucket is the top ten of the low 32 bits of the product with 2654404609 |
| `SfsLayout.ContentSound` | lab8/tools/mksfs.c:516-530 | byte x of a decoded file is byte x % 4096 of its block x / 4096, and the size cuts it off |
| `SfsLayout.EntriesSound` | lab8/tools/mksfs.c:472-512 | entry i of a decoded directory is that of block i + 2, and its tree hangs below the inode that is named there |
| `SfsLayout.DecodeSound` | lab8/tools/mksfs.c:466-542 | what a successful decoding implies: types, contents, both dot entries with the right numbers, all other entries in order, and a link count of 2 and one for each subdirectory |
| `SfsLayout.HeightExact` | lab8/tools/mksfs.c:495-497 | the depth that suffices for decoding is that of the deepest chain of directories |
| `SfsDecode.DecodeNode` | lab8/tools/mksfs.c:466-542 | every represented object (file, link or directory, at any depth) decodes from the image bytes to its tree |
| `SfsDecode.DecodeBody` | lab8/tools/mksfs.c:474-512 | the entries of a directory decode to the packed host entries, in their order |
| `SfsDecode.BlockReadsBack` | lab8/tools/mksfs.c:406-422 | on disk, block k of a file is found through direct, indirect and double-indirect tables where the cached map has it |
| `SfsDecode.ContentReadsBack` | lab8/tools/mksfs.c:516-530 | the blocks of a file, cut by its size, are the bytes that were read |
| `SfsDecode.InodeReadsBack` | lab8/tools/mksfs.c:134-142 | size, type, links, blocks and block numbers of an inode are read back from its block |
| `SfsCounts.LinksReadBack` | lab8/tools/mksfs.c:428-437 | the inodes reachable on the image are those of the cache; each one's nlinks is the number of entries, over all reachable directories, that name it (modulo 2^16), and entries name inodes only |
| `SfsCounts.LinkCountFits` | lab8/tools/mksfs.c:134-142 | the count is that number itself if and only if it is below 65536 |
| `SfsCounts.ReachableOnDisk` | lab8/tools/mksfs.c:466-514 | an inode number can be reached from the root by entries on disk if and only if it was allocated as an inode |
| `SfsReach.LeafGrafted` | lab8/tools/mksfs.c:449-464 | after add_file and add_link every new inode hangs below the directory |
| `SfsReach.DirGrafted` | lab8/tools/mksfs.c:439-447 | after add_dir so does everything that its open_dir made, although the entry comes last |
| `SfsReach.GraftedStep` | lab8/tools/mksfs.c:474-512 | and still does while further entries are added |
| `SfsReach.AllUnderRoot` | lab8/tools/mksfs.c:544-556 | in the end every inode hangs below the root |
| `SfsLinks.LinksNewEntry` | lab8/tools/mksfs.c:428-437 | adding one entry and one to nlinks keeps all counts right |
| `SfsLinks.LinksNewInode` | lab8/tools/mksfs.c:201-212 | a new inode with nlinks 0 keeps all counts right |
| `SfsLinks.LinksKeep` | lab8/tools/mksfs.c:516-542 | filling a file or a link changes no count |
| `SfsLinks.NamingStep` | lab8/tools/mksfs.c:428-437 | an entry raises the number of entries naming its target by one and no other |
| `SfsOwnership.PlacesAreDistinct` | lab8/tools/mksfs.c:173-254 | in every valid state superblock, free map, inodes, tables and file blocks have pairwise distinct numbers below the allocation mark |
| `SfsOwnership.PlaceKind` | lab8/tools/mksfs.c:287-349 | each use of a block lies in its own part of the state, so that what close_sfs writes hits no data or entry |
| `SfsRuns.Execute` | lab8/tools/mksfs.c:382-426 | any run of new files and interleaved appends equals the run on plain lists, fails exactly when that does, and keeps the cached tables current |
| `SfsRuns.RefinesAppend` | lab8/tools/mksfs.c:397-426 | one append, resolved through all levels, adds one chunk to one list: block numbers, contents, size and next free block |
| `SfsPacking.AppendLimit` | lab8/tools/mksfs.c:397-426 | an append succeeds if and only if the blocks before it are less than 128 MB and there is room for it and the tables due behind 12, 1036 and each further 1024 blocks; then it takes the last of these numbers |
| `SfsPacking.NewFileLimit` | lab8/tools/mksfs.c:201-212 | a new file takes the next number, if and only if there is one |
| `SfsRuns.RefinesNew` | lab8/tools/mksfs.c:201-212 | a new inode is an empty list |
| `SfsRuns.RefinesInitially` | lab8/tools/mksfs.c:223-254 | the new image is valid and holds one empty file, the root |
| `SfsAppend.AppendRefinesSequence` | lab8/tools/mksfs.c:397-426 | append_block keeps the invariant, adds exactly one block to the file's list, leaves all other files alone and allocates exactly the tables that are due |
| `SfsAppend.CachedTablesAreCurrent` | lab8/tools/mksfs.c:382-395 | the cached l1 and l2 are the tables named by the inode and the l2 table, and a number is 0 exactly when a table is due |
| `SfsAppend.SearchFindsOnlyBucketZero` | lab8/tools/mksfs.c:182-199 | a cached block would be found by its number exactly if that hashes like 0 |
| `SfsRuns.SearchMisses` | lab8/tools/mksfs.c:182-199 | a valid state with a cached block that a search by number does not find |
| `SfsBlockMap.PutDirectInv` | lab8/tools/mksfs.c:406-408 | storing in the inode extends one file and keeps the invariant |
| `SfsBlockMap.PutSingleInv` | lab8/tools/mksfs.c:409-414 | the same through the indirect table |
| `SfsBlockMap.PutDoubleInv` | lab8/tools/mksfs.c:415-422 | the same through the double-indirect tables |
| `SfsBlockMap.WithBlockInv` | lab8/tools/mksfs.c:182-190 | allocating a table block keeps the invariant |
| `SfsBlockMap.WithInodeInv` | lab8/tools/mksfs.c:201-212 | allocating an inode keeps the invariant, chains included |
| `SfsBlockMap.WithDataFresh` | lab8/tools/mksfs.c:173-180 | a block fresh from the allocator belongs to no file |
| `SfsTree.HoldsFrame` | lab8/tools/mksfs.c:439-464 | what has been packed stays packed while other directories grow |
| `SfsWalk.EntryReadsBack` | lab8/tools/mksfs.c:428-434 | an entry block gives back the inode number and the first 252 bytes of the name, whatever the static buffer held before |
| `SfsWalk.FilledStep` | lab8/tools/mksfs.c:520-526 | writing and appending one block extends the contents of one file |
| `SfsDir.OpenedStep` | lab8/tools/mksfs.c:474-512 | packing one more host entry extends what a directory holds, its link count and the plan |
| `SfsDir.OpenedStart` | lab8/tools/mksfs.c:472-473 | after the two dot entries the directory holds nothing else |
| `SfsPlan.PlanDirPrefix` | lab8/tools/mksfs.c:474-512 | if a directory fits, so does every prefix of its entries |
| `SfsClose.FlushEnd` | lab8/tools/mksfs.c:335-348 | after the last bucket every inode and table is on disk, data and entries are untouched, and exactly the blocks below the mark are written |
| `SfsClose.MapStep` | lab8/tools/mksfs.c:317-334 | one more block of the free map makes it right for 32768 more blocks |
| `FreeMap.FreeMapWords` | lab8/tools/mksfs.c:318-332 | bit b of the words is set exactly if block i + b is free |
| `FreeMap.FreeCountExact` | lab8/tools/mksfs.c:312-335 | the number of bits set on disk is ninos - next_ino, the superblock's count |
| `FreeMap.BitOfSetBit` | lab8/tools/mksfs.c:330 | setting a bit of a word sets that bit and no other |
| `FreeMap.BlockBitOfWords` | lab8/tools/mksfs.c:327-333 | in memory order, bit b of the block is bit b % 32 of word b / 32 |
| `SfsBuilder.Builder.constructor` | lab8/tools/mksfs.c:223-254 | the state after create_sfs |
| `SfsBuilder.Builder.AllocIno` | lab8/tools/mksfs.c:173-180 | numbers are handed out in order, as long as there are any, and unused_blocks keeps pace |
| `SfsBuilder.Builder.AllocCacheBlock` | lab8/tools/mksfs.c:182-190 | a zeroed table, in the bucket of the parameter |
| `SfsBuilder.Builder.SearchCacheBlock` | lab8/tools/mksfs.c:192-199 | finds a number exactly if it is in the bucket that it hashes to |
| `SfsBuilder.Builder.AllocCacheInode` | lab8/tools/mksfs.c:201-212 | an empty inode at the head of the bucket of its host number |
| `SfsBuilder.Builder.SearchCacheInode` | lab8/tools/mksfs.c:214-221 | the newest inode with the host number, or none exactly if there is none |
| `SfsBuilder.Builder.UpdateCache` | lab8/tools/mksfs.c:382-395 | allocates for number 0, else keeps the state and succeeds exactly if the cached block is right or can be found |
| `SfsBuilder.Builder.StoreSingle` | lab8/tools/mksfs.c:409-414 | the indirect branch computes the specified state, exactly if its table can be had |
| `SfsBuilder.Builder.FindDouble` | lab8/tools/mksfs.c:415-420 | both tables of the double-indirect branch, allocated exactly when due |
| `SfsBuilder.Builder.StoreDouble` | lab8/tools/mksfs.c:415-422 | the double-indirect branch computes the specified state |
| `SfsBuilder.Builder.AppendBlock` | lab8/tools/mksfs.c:397-426 | succeeds exactly below 32768 blocks and with room for its tables; then appends one block to one file |
| `SfsBuilder.Builder.WriteBlock` | lab8/tools/mksfs.c:287-300 | one disk block becomes the data, zero-filled |
| `SfsBuilder.Builder.WriteNewBlock` | lab8/tools/mksfs.c:522-523 | the next block gets the data and belongs to no file yet |
| `SfsBuilder.Builder.AddEntry` | lab8/tools/mksfs.c:428-437 | one more entry, one more link, everything else as before; success exactly if there is room |
| `SfsBuilder.Builder.OpenFile` | lab8/tools/mksfs.c:516-530 | the file holds what was read; success exactly if only the last read was short and there is room |
| `SfsBuilder.Builder.OpenLink` | lab8/tools/mksfs.c:532-542 | the link holds its target; success exactly if that is shorter than a block and there is room |
| `SfsBuilder.Builder.AddFile` | lab8/tools/mksfs.c:449-457 | a file is packed once and entered each time; success exactly by plan |
| `SfsBuilder.Builder.AddLink` | lab8/tools/mksfs.c:459-464 | a link is packed and entered; success exactly by plan |
| `SfsBuilder.Builder.AddDir` | lab8/tools/mksfs.c:439-447 | a directory with its whole tree is packed and entered; success exactly by plan, so not if its host number was seen |
| `SfsBuilder.Builder.OpenDir` | lab8/tools/mksfs.c:466-514 | the directory holds its dot entries and the packed host entries, in order, skipping hidden and special ones; success exactly by plan |
| `SfsBuilder.Builder.WriteFreeMap` | lab8/tools/mksfs.c:317-334 | the map is exact and fills exactly the blocks reserved for it |
| `SfsBuilder.Builder.FlushBlocks` | lab8/tools/mksfs.c:338-342 | one bucket of tables is written, nothing else changes |
| `SfsBuilder.Builder.FlushInodes` | lab8/tools/mksfs.c:343-347 | one bucket of inodes is written, nothing else changes |
| `SfsBuilder.Builder.Close` | lab8/tools/mksfs.c:312-349 | the disk is the image of the state |
| `SkewHeapNodes.Merge` | lab8/libs/skew_heap.h:29-59 | in place, the entries form the merged shape with correct parent pointers below the root, in the counted number of calls |
| `SkewHeapNodes.InsertEntry` | lab8/libs/skew_heap.h:61-67 | the entries and the new one form the heap with it inserted |
| `SkewHeapNodes.RemoveEntry` | lab8/libs/skew_heap.h:69-85 | for any member, the other entries form the heap without it, whose root has no parent |
| `SkewHeapNodes.Execute` | lab8/libs/skew_heap.h:29-85 | any legal run leaves a well-linked ordered heap of exactly the members, a least one at the root, in at most m(5 log2(n + 1) + 3) merge calls, where n is the largest number of members at any time |
| `SkewHeapNodes.ReplaceChild` | lab8/libs/skew_heap.h:75-83 | redirecting one child pointer of the parent replaces that subtree in the whole shape |
| `SkewHeap.MergeAmortised` | lab8/libs/skew_heap.h:29-59 | calls + potential after <= potential before + 1 + 2(log2(size a + 1) + log2(size b + 1)) |
| `SkewHeap.RemoveAmortised` | lab8/libs/skew_heap.h:69-85 | the same for removal anywhere: + 1 + 5 log2(size + 1), although ancestors may become right-heavy |
| `SkewHeap.InsertAmortised` | lab8/libs/skew_heap.h:61-67 | the same for insertion: + 3 + 2 log2(size + 1) |
| `SkewHeap.RunIsLogarithmic` | lab8/libs/skew_heap.h:29-85 | any run of m operations from empty costs at most m(5 log2(n + 1) + 3) calls, where n is the largest size that the heap has during the run |
| `SkewHeap.LargestIsFew` | lab8/libs/skew_heap.h:61-85 | n is at most m and at least the final size |
| `SkewHeap.RunKeepsHeap` | lab8/libs/skew_heap.h:29-85 | every run keeps order, distinct entries and the set of members, and the root is least |
| `SkewHeap.MergeEntries` | lab8/libs/skew_heap.h:29-59 | a merge has the entries of both heaps |
| `SkewHeap.MergeOrdered` | lab8/libs/skew_heap.h:29-59 | a merge of ordered heaps is ordered |
| `SkewHeap.RemoveEntries` | lab8/libs/skew_heap.h:69-85 | removal takes out the entry and nothing else |
| `SkewHeap.RemoveOrdered` | lab8/libs/skew_heap.h:69-85 | removal keeps order and lowers no root |
| `SkewHeap.RootIsLeast` | lab8/libs/skew_heap.h:29-59 | the root of an ordered heap is a least entry |
| `SkewHeap.MergeCallsExact` | lab8/libs/skew_heap.h:29-59 | the calls are 1 + i + j, for the i and j entries taken from the two right spines, one of which is used up; i + j steps to the left in the result hangs the rest of the other tree |
| `SkewHeap.MergeRootExact` | lab8/libs/skew_heap.h:37-58 | the root is the lesser of both, that of b in a tie, and its old left subtree is now on the right |
| `SkewHeap.MembersExact` | lab8/libs/skew_heap.h:61-85 | a member is what was inserted at some time and not removed since |
| `SkewHeap.LegalExact` | lab8/libs/skew_heap.h:61-85 | a run is legal if and only if it inserts no member and removes members only |
| `SkewHeap.LargestExact` | lab8/libs/skew_heap.h:61-85 | n is the number of members at some time of the run, and at no time are there more |
| `SkewHeap.Log2Exact` | lab8/libs/skew_heap.h:29-59 | log2 is the binary logarithm, rounded down |
| `SkewHeap.IntegersCompare` | lab8/libs/skew_heap.h:10 | the order of the integers is a comparison as the heap demands it |
| `PrintFmt.Vprintfmt` | lab8/libs/printfmt.c:135-295 | for every format it ends, reads nothing behind the NUL and emits exactly what the format means |
| `PrintFmt.Escape` | lab8/libs/printfmt.c:150-293 | one escape, recognised or not, moves the cursor past its % and emits its share |
| `PrintFmt.ReadFlags` | lab8/libs/printfmt.c:151-200 | the reswitch loop reads exactly the flags, width, precision and arguments, in ints that wrap |
| `PrintFmt.ReadNumber` | lab8/libs/printfmt.c:169-177 | a width is the int that its longest run of digits spells: wrapping at every digit is wrapping once |
| `PrintFmt.Rewind` | lab8/libs/printfmt.c:288-292 | the cursor goes back to just behind the last % |
| `PrintFmt.PutText` | lab8/libs/printfmt.c:143-148 | text up to a % or the end is emitted as it is |
| `PrintFmt.Convert` | lab8/libs/printfmt.c:202-285 | each conversion emits its text |
| `PrintFmt.PrintNumber` | lab8/libs/printfmt.c:244-280 | %d, %u, %o, %p and %x |
| `PrintFmt.PrintNum` | lab8/libs/printfmt.c:53-69 | printnum emits the digits, padded on the left |
| `PrintFmt.StringTextShort` | lab8/libs/printfmt.c:221-242 | up to 2^30 characters, %s is padded on the side that its flag says and on no other, although the width is counted down twice |
| `PrintFmt.PrintString` | lab8/libs/printfmt.c:221-242 | %s with width, precision and the alternate flag |
| `PrintFmt.PrintError` | lab8/libs/printfmt.c:207-219 | %e, by two nested calls of the formatter |
| `PrintFmt.Strnlen` | lab8/libs/string.c:33-40 | the length, at most the bound, which -1 removes |
| `PrintFmt.UnknownEscape` | lab8/libs/printfmt.c:287-292 | an unrecognised or cut-off escape is emitted as it stands, flags included |
| `PrintFmt.PlainText` | lab8/libs/printfmt.c:143-148 | text without % stands for itself |
| `PrintFmt.WidthFormatMeans` | lab8/libs/printfmt.c:163-200 | %17d, %017ld and the like mean the int that they spell, for every spelled width |
| `PrintFmt.WidthIsKept` | lab8/libs/printfmt.c:53-69 | the field has the spelled width if and only if that exceeds the digits by at most INT_MAX |
| `PrintFmt.UnsignedReadsBack` | lab8/libs/printfmt.c:254-280 | strtol reads %u, %o and %x with any width, blank- or zero-padded, to the end, and gives the low 32 bits of the argument, or with an l the low 64, if and only if they are at most 2^63 - 1 |
| `PrintFmt.SignedReadsBackFromFormat` | lab8/libs/printfmt.c:244-252 | strtol undoes %d with a width if and only if the number is not negative, zero-padded or fills the field; for widths up to INT_MAX, if it has at least that many digits |
| `PrintFmt.SignedArgument` | lab8/libs/printfmt.c:94-105 | the argument of %d is the number in the range of an int, or with an l of a long, that its low bits stand for |
| `FormatLaws.UnsignedEscape` | lab8/libs/printfmt.c:254-280 | %u, %o and %x print the low 32 bits of their argument, or with one or two l the low 64, in base 10, 8 and 16 |
| `FormatLaws.LongArgument` | lab8/libs/printfmt.c:76-87 | %lu of 5000000000 prints that, and %u of it 705032704 |
| `FormatLaws.SignedEscape` | lab8/libs/printfmt.c:244-252 | %d prints the int, or with an l the long, that its argument stands for: a dash if it is negative, and its magnitude |
| `FormatLaws.PointerEscape` | lab8/libs/printfmt.c:266-272 | %p prints 0x and the 64 bits in base 16 |
| `FormatLaws.TextEscapes` | lab8/libs/printfmt.c:202-242 | %c prints the low byte of its argument, %s the string, and (null) for NULL |
| `FormatLaws.ArgumentsInOrder` | lab8/libs/printfmt.c:202-285 | each conversion takes the next argument, and %% takes none |
| `FormatLaws.OtherLetters` | lab8/libs/printfmt.c:287-292 | any other letter is printed as it stands, with its % |
| `FormatLaws.NumberFlag` | lab8/libs/printfmt.c:168-200 | a spelled number among the flags is the width, or the precision if there is a width |
| `FormatLaws.WidthAndPrecision` | lab8/libs/printfmt.c:168-195 | %5.3s and the like: the first number is the width, the second the most characters |
| `FormatLaws.PrecisionAlone` | lab8/libs/printfmt.c:183-195 | %.3s and the like: at most so many characters and no padding |
| `FormatLaws.DashFlag` | lab8/libs/printfmt.c:158-161 | the dash flag pads a string on the right with blanks, but a number on the left with dashes |
| `FormatLaws.AlternateFlag` | lab8/libs/printfmt.c:231-238 | %#s prints a question mark for each character outside 32 to 126, and all others as they are |
| `FormatLaws.StarFlag` | lab8/libs/printfmt.c:179-181 | a star takes the width from the arguments, before the number |
| `FormatLaws.ErrorNumbers` | lab8/libs/printfmt.c:207-219 | an error number prints as such if and only if it is 0, 7, 11, 12 or above 24 |
| `FormatLaws.ErrorTexts` | lab8/libs/printfmt.c:18-41 | the text of each other number |
| `FormatLaws.ErrorSigns` | lab8/libs/printfmt.c:210-212 | a number and its negative print alike |
| `FormatLaws.AllFormats` | lab8/libs/printfmt.c:135-295 | no format is excluded if it has no e in it or no argument is the least int |
| `FormatLaws.StoredMeans` | lab8/libs/printfmt.c:347-358 | what the buffer holds, character by character: text, NUL, and around them what was there |
| `PrintFmt.SprintBuf.constructor` | lab8/libs/printfmt.c:349 | an empty sink over part of a memory |
| `PrintFmt.SprintBuf.Putch` | lab8/libs/printfmt.c:309-315 | every character is counted, and stored if there is room |
| `PrintFmt.SprintBuf.Finish` | lab8/libs/printfmt.c:355-357 | the stored part is NUL-terminated, and the memory around it is untouched |
| `PrintFmt.Vsnprintf` | lab8/libs/printfmt.c:347-358 | stores the first min(n, size - 1) characters and a NUL, changes nothing else and returns n as an int, which is n if and only if n is at most INT_MAX; for NULL or size 0 returns -E_INVAL and changes nothing |
| `Numerals.Strtol` | lab8/libs/string.c:215-271 | the low 64 bits of the number, and the end, that blanks, sign, prefix and digits define |
| `Numerals.ReadDigits` | lab8/libs/string.c:244-265 | the longest run of digits and the low 64 bits of its value: wrapping at every step is wrapping once |
| `Numerals.ReadNumText` | lab8/libs/string.c:215-271 | strtol reads printnum's output to its end, in bases 8, 10 and 16, any width, blanks or zeros, and gives the number if and only if it is at most LONG_MAX |
| `Numerals.HexPrefix` | lab8/libs/string.c:207-241 | with base 0 or 16, blanks and a sign or not, the prefix and hexadecimal digits are read to the end if and only if the prefix is 0x; at 0X the read stops behind the 0 with value 0 |
| `Numerals.UpperCasePrefix` | lab8/libs/string.c:233-241 | 0X1f is read as 0 and 0x1f as 31 |
| `ReadLaws.BlankSkipped` | lab8/libs/string.c:220-223 | a blank or a tab in front is skipped, whatever follows |
| `ReadLaws.SignRead` | lab8/libs/string.c:225-231 | a plus is passed over and a minus negates, also if the number is -2^63 |
| `ReadLaws.PlusFive` | lab8/libs/string.c:225-231 | +5 is read as 5 and -5 as -5 |
| `ReadLaws.BaseZero` | lab8/libs/string.c:233-242 | with base 0, a 0 that no x follows selects octal, and any other digit decimal |
| `ReadLaws.OneDigitRead` | lab8/libs/string.c:244-262 | the values of 0 to 9, a to z and A to Z, as far as the base goes and no further |
| `ReadLaws.NothingRead` | lab8/libs/string.c:257-259 | nothing else begins a number |
| `ReadLaws.LowerCaseDigits` | lab8/libs/printfmt.c:68 | printnum emits 0 to 9 and a to f only |
| `Numerals.SignedRoundTrip` | lab8/libs/printfmt.c:244-252 | strtol reads %d of any long back, the least included, if and only if the number fills the width, is zero-padded, is not negative and blank-padded, or is 0 behind one dash |
| `Numerals.BlankAfterSign` | lab8/libs/printfmt.c:244-252 | an instance where it does not |
| `Numerals.PointerRoundTrip` | lab8/libs/printfmt.c:266-272 | strtol with base 0 or 16 reads %p back if and only if the pointer is at most LONG_MAX and not padded or padded with zeros; the bits of the long are those of the pointer if and only if the latter |
| `Numerals.KernelAddress` | lab8/libs/string.c:215-271 | the lowest kernel address, printed and read back, is a negative long |
| `CInts.Horner64` | lab8/libs/string.c:263 | the low 64 bits of val * base + dig do not depend on earlier wrap-around |
| `CInts.Horner32` | lab8/libs/printfmt.c:171 | the same for an int |
| `CInts.Magnitude64` | lab8/libs/printfmt.c:247-250 | the magnitude of every negative number is right as an unsigned one |
| `Numerals.ValueOfDigits` | lab8/libs/printfmt.c:53-69 | the digits of a number have its value |
| `Rand.FullPeriod` | lab8/libs/rand.c:13 | from any state, the state is back after k steps if and only if 2^48 divides k |
| `Rand.NoRepeats` | lab8/libs/rand.c:13 | within a period no state occurs twice |
| `Rand.EveryStateIsVisited` | lab8/libs/rand.c:13 | within a period every 48-bit state occurs |
| `Rand.OutputRange` | lab8/libs/rand.c:11-16 | from any state, the values returned are exactly 1 to RAND_MAX |
| `Rand.SumDivisibility` | lab8/libs/rand.c:13 | a power of two divides the geometric sum of k powers of the multiplier if and only if it divides k |
| `Rand.StepExact` | lab8/libs/rand.c:13 | a step is x * 25214903917 + 11, less a multiple of 2^48 |
| `Rand.OutputExact` | lab8/libs/rand.c:14-15 | the value returned is one more than the remainder modulo 2147483647 of the state without its low twelve bits |
| `Rand.FirstValue` | lab8/libs/rand.c:4-16 | from the initial state, the first state is 25214903928 and the first value 6155983 |
| `Rand.Generator.constructor` | lab8/libs/rand.c:4 | the first state |
| `Rand.Generator.Next` | lab8/libs/rand.c:11-16 | one step of the state, and the value for it, with 64-bit wrap-around |
| `Rand.Generator.Srand` | lab8/libs/rand.c:22-25 | the state is the seed |
| `Rand.Generator.Skip` | lab8/libs/rand.c:11-16 | k calls advance the state by k steps |
| `RingList.Init` | lab8/libs/list.h:40-43 | a ring of one |
| `RingList.AddBetween` | lab8/libs/list.h:141-146 | the four pointers between the neighbours and the new entry |
| `RingList.Join` | lab8/libs/list.h:154-158 | two entries become neighbours |
| `RingList.Splice` | lab8/libs/list.h:141-146 | __list_add inside a ring gives the ring with the entry inserted |
| `RingList.AddAfter` | lab8/libs/list.h:79-82 | the entry follows the given member |
| `RingList.AddBefore` | lab8/libs/list.h:66-69 | the entry precedes the given member, and before the head is the end |
| `RingList.Del` | lab8/libs/list.h:91-94 | the ring without the member, be it the head, whose own pointers stay; a ring of one stays |
| `RingList.DelInit` | lab8/libs/list.h:102-106 | the ring without the member, be it the head, which becomes a ring of its own |
| `RingList.Empty` | lab8/libs/list.h:112-115 | true exactly of a head alone |
| `RingList.NextAndPrevAreInverse` | lab8/libs/list.h:121-133 | on a ring next and prev undo each other |
| `RingList.Forward` | lab8/libs/list.h:121-124 | following next visits the members in order |
| `RingList.Backward` | lab8/libs/list.h:130-133 | following prev visits them in reverse |
| `RingList.AddThenDelete` | lab8/libs/list.h:66-94 | adding an entry behind or before any member and deleting it restores every pointer |
| `RingList.Execute` | lab8/libs/list.h:40-106 | any legal run of the four operations keeps one ring, of what the same run leaves in a sequence, and each entry taken out by list_del_init is a ring of its own until it is inserted again |
| `RingList.OneOperation` | lab8/libs/list.h:66-106 | when each operation is legal, and the members and lone entries after it, written out |
| `RingList.InOrder` | lab8/libs/list.h:66-106 | a run is done from its first operation to its last: runs compose |
| `Memory.Memmove` | lab8/libs/string.c:304-323 | for any two ranges the destination becomes the old source and every other byte stays |
| `Memory.CopyDown` | lab8/libs/string.c:311-315 | the backward loop, byte by byte |
| `Memory.CopyUp` | lab8/libs/string.c:316-320 | the forward loop, for any two ranges, overlapping or not |
| `Memory.ForwardIsRight` | lab8/libs/string.c:311-320 | the forward loop moves correctly on every memory if and only if the test of memmove chooses it |
| `Memory.CopiedUpRepeats` | lab8/libs/string.c:316-320 | into a destination above its source, the forward loop repeats what it has written |
| `Shell.Gettoken` | lab8/user/sh.c:18-47 | the next token of the line and where the rest begins, or 0; blanks before it and symbols become NUL, quotes in it blanks, all else stays |
| `Shell.EraseSpace` | lab8/user/sh.c:24-26 | blanks become NUL up to the first other character |
| `Shell.PassWord` | lab8/user/sh.c:37-44 | up to the end of the word, quotes become blanks |
| `Shell.Strchr` | lab8/libs/string.c:154-163 | the first occurrence, or none; never the terminator |
| `Shell.Drain` | lab8/user/sh.c:18-47 | calling gettoken until it returns 0 gives the tokens of the line in order; then each word pointer reads as its word with blanks for quotes, and every other character is NUL |
| `Shell.TokensExact` | lab8/user/sh.c:18-47 | a division of a line into tokens and blanks, defined without an order of reading, exists, is unique and is what the left-to-right tokenizer finds |
| `Shell.WordReads` | lab8/user/sh.c:37-45 | in a drained line each word is a terminated C string |
| `Shell.BehindWord` | lab8/user/sh.c:38 | what follows a word belongs to no word |
| `Shell.WordsEnd` | lab8/user/sh.c:37-44 | a word without quotes is ended by a blank, tab, CR, LF or one of the symbols < & > ; and the vertical bar, and by no other character |
| `Shell.SymbolsStand` | lab8/user/sh.c:24-35 | each of the five symbols is a token by itself, and each of the four blanks is skipped |
| `Shell.QuotedWord` | lab8/user/sh.c:37-44 | nothing between quotes ends a word |
| `Shell.TwoCommands` | lab8/user/sh.c:18-47 | ls;pwd is three tokens |
| `Shell.QuotesAreBlanks` | lab8/user/sh.c:39-41 | quotes are stored as blanks and all else as it is |

## Left out

- Host input and output in mksfs.c: opening files and directories, stat, errors of system calls, out of memory, printing of paths and warnings; `readdir`, `lstat`, `read` and `readlink` are replaced by the host tree.
- Device numbers in mksfs.c (host inode numbers are taken as unique), files that change while they are read, and reads that fail.
- The static buffers of `write_block`, `open_file` and `open_link`, and the addresses of malloc'ed records: records are map rows that are identified by block number, so aliasing between a record and its copies is not modelled.
- `SfsImage.CreateImg`: host numbers of regular files are taken as nonzero and of one type each, as the host guarantees.
- C leaves the overflow of signed integers undefined; the model takes the wrap-around described above for it. This concerns `strtol` beyond LONG_MAX, a %ld of LONG_MIN, a spelled width beyond INT_MAX, a width near INT_MIN and more than INT_MAX characters of output.
- `PrintFmt.Vprintfmt`: emits into the sink of `vsnprintf`; other `putch` functions (console, file) are not modelled, nor is a format or string argument that lies in the memory being written. A %e whose argument is INT_MIN is excluded: it stays negative, and the source reads outside its table.
- Everything in the kernel (memory management, scheduling, file system), whose sources are not part of this model.
- The other library and user programs (hash.c, readline.c, the rest of string.c, runcmd and main of sh.c, elf and stat headers), which would add only easy members or calls into the kernel.
- The copies of these files in earlier labs, which differ little.
