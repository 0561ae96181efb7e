# The kr file system, in Dafny

A model of `kr`, an ext2-like kernel file system, and proofs about it. The
modules follow the source's files; state that the source changes in place is
changed in place here, in classes and arrays, and every such method is proved
against a value that says what it means.

* **Block map and truncate** (`BlockPath`, `PointerTree`, `FreeTree`, `FileMap`,
  `Branch`, `CutPath`, `Truncate`, `Graft`, `Splice`, `NewBranch`, `GetBlocks`,
  `MaxSize`). A file is a tree of pointers. `FileMap.BlockMap` is the map from
  logical to physical blocks that it stands for, `PointerTree.All` the multiset
  of blocks it reaches. Lookup, creation and truncation are proved to refine
  operations on that map and to own exactly those blocks.
* **Block allocator** (`Bitmap`, `Groups`, `Reservation`, `RsvAlloc`,
  `Allocator`). Bitmaps, group counts and the global counter are tied to one set
  of used blocks. Reservation windows are an ordered sequence; the searches that
  the source makes in a red-black tree are proved for a tree of any shape.
* **The whole volume** (`Volume`). Any number of files over one allocator, under
  any run of operations.
* **Readers without locks** (`Lockless`). The walk down a file's tree as a state
  machine beside detaching, clearing and splicing writers, one memory access a step.
* **Extended attributes** (`ByteBuffer`, `XattrLayout`, `XattrEdit`,
  `XattrValue`, `HashMix`, `XattrHash`, `XattrWrite`, `XattrBlock`, `XattrSet`,
  `XattrShare`, `XattrSpoil`). The bytes of a block, edited by moves and copies, and the hashes
  that go with them; then blocks shared by inodes, against one independent map
  for each inode. The code is not linked into the module and
  is modelled by itself.
* **Directories** (`DirRecord`, `DirPage`, `DirEdit`, `DirWrite`, `DirDrop`,
  `DirTable`, `DirNames`, `DirRead`, `DirFirst`, `Directory`). Records of
  variable length that tile the chunks of pages, against a table of names.
* **Namespace** (`Links`, `Moves`, `Namespace`, `Mounted`). Link counts and `..`
  under any run of creating, linking, removing and renaming: first over such
  tables, then over the pages of all directories.
* **Inode allocator and access control lists** (`Ialloc`, `Acl`).

Five results are about where the code does not do what it is meant to, each with
the exact condition and with an input or a run that meets it:

* A chain of pointers read without a lock may have been linked at no moment.
  Truncate clears slots without the lock that readers take: the direct slots
  (`Exercises/Exercise19/inode.c:1136-1139`), the ends of the indirect blocks on
  the shared branch (1152-1159, through 1042) and the roots of whole subtrees
  (1162-1186). `Lockless.CompleteChainWasLinked` holds for all such clearings but
  those of a slot that the reader has verified in its last round,
  `Lockless.ExposedClearBreaks` shows that each of those can break it as long as
  the rest of the chain holds, and
  `Lockless.UnlockedClearBreaks` is one run.
* The check against freeing an inode table looks at the ends of a run only:
  `Allocator.Allocator.TableRefusedUnlessCovered`, with `Allocator.TableFreed`.
* The search for a window may pass over a gap that holds a free block, and find
  none: `Reservation.GapPassedOver` is an input. The gaps it can come to are those
  that `Reservation.Quest.Reached` describes; it finds the first of them with a free block,
  and fails only if there is none (`Reservation.WindowTree.SearchWindow`).
* A directory page with a nameless entry is accepted, but adding an entry behind
  it makes the page one that is not: `DirWrite.CutsSoundly`, with
  `DirWrite.AcceptedThenRefused`.
* Setting an extended attribute may fail and change it all the same:
  `XattrShare.Store.Set` says exactly when, with `XattrSpoil.FailsWithEffect`.

Standing assumptions, where the source relies on them: metadata blocks and the
bits past the end of the last group are marked used, and so are reserved inode
numbers and those past the last; names that are added to a directory were looked
up before and are not there; a directory's blocks cover its size; block sizes
are 1K, 2K or 4K where pages are concerned. What the program learns from outside
(how many requests the quota grants, for how many buffers there is memory, whether
a lock that is only tried for is free, the goal of an allocation, a random start)
is a parameter of any value.

## Model

| member | source | states |
|---|---|---|
| `BlockPath.PathOfBlock` | Exercises/Exercise19/inode.c:161-201 | A path comes back exactly for the block numbers in range; it is well formed, and reading it back gives the number. |
| `BlockPath.BlockOfPath` | Exercises/Exercise19/inode.c:161-201 | Every well-formed path is the path of one addressable block: with PathOfBlock, a bijection. |
| `BlockPath.PathOrder` | Exercises/Exercise19/inode.c:161-201 | Block numbers compare as their paths do, lexicographically. |
| `BlockPath.BoundaryRun` | Exercises/Exercise19/inode.c:161-201 | The next `boundary` blocks have the same path but for the last offset, counted up, and the one after them does not. |
| `MaxSize.WithinMaxSize` | Exercises/Exercise19/super.c:684-724 | For blocks of 1K to 4K, every file no larger than kr_max_size has a path for each of its blocks, and data and indirect blocks together fit in 2^32-1 sectors. |
| `MaxSize.NodesBound` | Exercises/Exercise19/super.c:699-711 | The indirect blocks that a file of n blocks needs (the distinct proper prefixes of its paths) are no more than kr_max_size sets aside. |
| `MaxSize.LargestSize` | Exercises/Exercise19/super.c:684-724 | For those block sizes it is the largest such size: the page cache's limit, all addressable blocks, or one block short of too many sectors in a file with all indirect blocks. |
| `MaxSize.NotForLargeBlocks` | Exercises/Exercise19/super.c:684-724 | For 32K and 64K blocks the bound is negative: the computation is for smaller blocks only. |
| `Bitmap.FindNextZeroBit` | Exercises/Exercise19/balloc.c:576-585 | The first clear bit of the range, or its end. |
| `Bitmap.FindNextUsable` | Exercises/Exercise19/balloc.c:600-636 | Near the goal, then the first zero byte, then any bit: which free bit of [start, max) comes back is said without the search, and there is one exactly when a bit is free. |
| `Bitmap.ClaimFrom` | Exercises/Exercise19/balloc.c:725-734 | From a free bit the claim takes a run that is free throughout, and stops only at the count, the end or a used bit. |
| `Bitmap.TryToAllocate` | Exercises/Exercise19/balloc.c:661-738 | Sets exactly the run it returns, all of it free before, inside the group and the window; on failure changes nothing, and the range is full. Entered with a count of 0 it takes one block. |
| `Bitmap.ZeroBitsClaim` | Exercises/Exercise19/balloc.c:661-738 | Claiming a free run takes exactly its length off the free count. |
| `Bitmap.ClearRun` | Exercises/Exercise19/balloc.c:535-543 | Clears the run, and counts the bits that were set. |
| `Groups.Geometry.Locate` | Exercises/Exercise19/kr.h:809-814 | Every block has one group and one bit of it, and group and bit give the block back. |
| `Groups.BooksDetermined` | Exercises/Exercise19/balloc.c:162-175 | The set of used blocks determines every bitmap and every free count. |
| `Groups.TieFill` | Exercises/Exercise19/balloc.c:661-738 | Filling a run of one bitmap adds exactly its blocks to the used ones; clearing takes exactly them out. |
| `Groups.FreeIsUnused` | Exercises/Exercise19/balloc.c:1464-1506 | The sum of the groups' free counts is the number of blocks not in use. |
| `Reservation.InsertKeepsOrder` | Exercises/Exercise19/balloc.c:326-355 | A window put between its neighbours leaves the windows non-empty, ordered and disjoint. |
| `Reservation.WindowTree.Search` | Exercises/Exercise19/balloc.c:288-320 | The window with the last start not behind the goal, whichever way the tree is shaped. |
| `Reservation.WindowTree.Add` | Exercises/Exercise19/balloc.c:326-355 | A window that meets no other goes in at its place; the overlap that the BUG check is for does not arise. |
| `Reservation.WindowTree.Remove` | Exercises/Exercise19/balloc.c:365-378 | The window is out of the tree and back at the "not allocated" value; the others are kept. |
| `Reservation.WindowTree.Discard` | Exercises/Exercise19/balloc.c:448-471 | The inode's window is empty and out of the tree afterwards, whether it was in it or not. |
| `Reservation.WindowTree.FindNextReservable` | Exercises/Exercise19/balloc.c:773-872 | On success the window is booked at the first start with a gap of its size; on failure nothing is changed, and every start of the range is blocked by some window of the tree, the caller's own included. |
| `Reservation.WindowTree.AllocNew` | Exercises/Exercise19/balloc.c:895-1018 | A start of a group is reached if it is the first gap from the goal on, or from a free block that lies behind every reached gap before it. It succeeds with the first reached gap that holds a free block, and fails only if there is none; the goal size doubles as the source does it; a window that crosses the end of the group is kept and fails. |
| `Reservation.WindowTree.SearchWindow` | Exercises/Exercise19/balloc.c:956-1018 | The search alone, for any window: the first reached gap with a free block is booked, or there is none and the window is given up. The starts strictly increase, so it ends. |
| `Reservation.GapPassedOver` | Exercises/Exercise19/balloc.c:956-1018 | The search is not complete: an input on which a gap of the wanted size with a free block in it is passed over, and no window is found, because the free block lies at the end of the gap before a window. |
| `Reservation.WindowTree.TryToExtend` | Exercises/Exercise19/balloc.c:1037-1060 | The window grows by no more than asked, never into its successor, and stops short only at its successor, or if the lock is not to be had. |
| `Reservation.WindowTree.SetGoalSize` | Exercises/Exercise19/ioctl.c:138-156 | The goal size is clamped to the maximum of 1027 blocks. |
| `Reservation.Interleave` | Exercises/Exercise19/balloc.c:287-372 | Over any interleaving of opening, setting, raising and doubling goal sizes, counting hits, booking, moving, extending and dropping windows: each step does to its file's window what it is for, and to no other; windows stay non-empty, ordered and disjoint, an inode's window is in the tree exactly when it is not the sentinel, and no goal size exceeds 1027. |
| `Reservation.ValidIsExclusive` | Exercises/Exercise19/balloc.c:287-372 | In a valid tree no two inodes' windows share a block. |
| `RsvAlloc.PrepareWindow` | Exercises/Exercise19/balloc.c:1132-1153 | A window is made anew exactly if there is none, the last pass failed, or the goal lies outside it; it is then the first reached gap with a free block. Otherwise it grows to the wanted size, no further, up to its successor. It fails only if no gap can be reached, or the window crosses the end of the group. |
| `RsvAlloc.TryToAllocateWithRsv` | Exercises/Exercise19/balloc.c:1089-1170 | Ends within two passes. What it takes lies in the caller's window; with a window it fails only if no start that the search can reach has a gap with a free block, or the group is in use from the goal on and the window reaches beyond it. The BUG checks on the window and on the result are never hit. |
| `Allocator.Allocator.TryGroup` | Exercises/Exercise19/balloc.c:1311-1322 | One group is tried: the one run claimed in it, or no bit changed. |
| `Allocator.Allocator.ScanGroups` | Exercises/Exercise19/balloc.c:1331-1365 | The first group after the start that has something to offer, with the rule that skips groups with too few free blocks for a window; all before it are passed over for a reason that is stated of the bitmaps and windows. |
| `Allocator.Allocator.SearchFrom` | Exercises/Exercise19/balloc.c:1290-1365 | The goal's group from the goal on, else the first other group that has something to offer: which block is taken, with a window or without. |
| `Allocator.Allocator.FindRun` | Exercises/Exercise19/balloc.c:1290-1381 | Both attempts together, the second without a window: which run is taken, and failure exactly if every bitmap is full. |
| `Allocator.FoundMeans` | Exercises/Exercise19/balloc.c:1290-1381 | What the search takes, in terms of used blocks: the first unused from the goal on, and a run that ends where it has to. |
| `Allocator.Allocator.Account` | Exercises/Exercise19/balloc.c:1388-1432 | The claimed run is fresh, off the metadata and inside the volume; group count and global counter follow it. |
| `Allocator.Allocator.NewBlocks` | Exercises/Exercise19/balloc.c:1228-1446 | ENOSPC exactly if quota is granted and no more blocks are unused than the reserve (none, for a caller who may use it); EDQUOT exactly without quota. Otherwise a fresh run of 1 to `count` blocks, charged to the inode exactly: without a window the first unused block from the goal on, if its group has one; and a run shorter than asked ends at a block in use, the group's end or the window's. On failure nothing has changed. |
| `Allocator.Allocator.NotInSystemZone` | Exercises/Exercise19/balloc.c:1390-1406 | A run off the metadata is never taken for system zone. |
| `Allocator.Allocator.FreeStep` | Exercises/Exercise19/balloc.c:499-556 | One round of the freeing loop, up to the end of a group: exactly the set bits of its part are freed and counted. |
| `Allocator.Allocator.FreeBlocks` | Exercises/Exercise19/balloc.c:473-564 | For any run, across groups and over clear bits, with every early exit: frees what the loop reaches, charges back exactly what was in use, and leaves counts equal to zero bits and to their sum. |
| `Allocator.Allocator.OwnedRunFreed` | Exercises/Exercise19/balloc.c:473-564 | A run that is in use and off the metadata is freed whole. |
| `Allocator.Allocator.FreeCounterExact` | Exercises/Exercise19/balloc.c:162-175 | The global counter is the number of blocks not in use. |
| `Allocator.Allocator.BooksRestored` | Exercises/Exercise19/balloc.c:162-175 | When the used blocks are again what they were, so are all bitmaps and counts. |
| `Allocator.Allocator.TableRefusedUnlessCovered` | Exercises/Exercise19/balloc.c:522-533 | The check looks only at the ends of a run: it refuses a run that meets the inode table if and only if the run does not reach over the table on both sides. |
| `Allocator.TableFreed` | Exercises/Exercise19/balloc.c:1390-1406 | On a volume of eight blocks a run that begins before and ends behind the inode table is freed, and the table's blocks with it. |
| `PointerTree.ReplaceForest` | Exercises/Exercise19/inode.c:1074-1107 | A change below one indirect block changes the blocks a file reaches by exactly what changed below it. |
| `PointerTree.ReplaceLookup` | Exercises/Exercise19/inode.c:232-270 | It changes the lookups that pass through that block, and no other. |
| `PointerTree.ClearNode` | Exercises/Exercise19/inode.c:1034-1107 | Clearing a range of slots takes exactly the trees under them out of the file, and leaves every other lookup. |
| `PointerTree.FillNode` | Exercises/Exercise19/inode.c:556-599 | Filling empty slots adds exactly the trees put there, and leaves every other lookup. |
| `FreeTree.FreeData` | Exercises/Exercise19/inode.c:1034-1061 | The runs of contiguous blocks are found and freed: every pointer of the range once, none twice. |
| `FreeTree.FreeBranches` | Exercises/Exercise19/inode.c:1074-1107 | Every block of the trees under the range is freed once, the charge goes down by as many, and blocks outside are not written. |
| `FileMap.FileSystem.ClearRange` | Exercises/Exercise19/inode.c:1074-1107 | In a whole file system: the map loses exactly the region under the range, and bitmaps, charge and tree agree again. |
| `Branch.VerifyChain` | Exercises/Exercise19/inode.c:124-129 | True exactly when every slot still holds what was read from it. |
| `Branch.GetBranch` | Exercises/Exercise19/inode.c:232-270 | The chain follows the path from the inode, and ends early exactly at an empty slot. |
| `Lockless.InvKept` | Exercises/Exercise19/inode.c:118-129 | Each step of a reader, of a detach under the lock, of a clearing without it of a slot the reader does not rely on, of a splice, or of a write to a block that is out of the tree keeps the reader's invariant; a chain that becomes complete is linked at that moment. |
| `Lockless.CompleteChainWasLinked` | Exercises/Exercise19/inode.c:232-270 | In any interleaving of those steps, a chain returned as complete was linked end to end from the inode at one single moment. |
| `Lockless.UnlockedClearBreaks` | Exercises/Exercise19/inode.c:1162-1186 | A run in which a slot that the reader relies on is cleared without the lock, as truncate does, and the reader returns a chain that was never linked. |
| `Lockless.ExposedClearBreaks` | Exercises/Exercise19/inode.c:1030-1050 | The condition cannot be weakened: from any run in which the reader relies on a slot and its chain holds, clearing that slot without the lock can be followed by allowed steps only to a complete chain that was linked at no moment. |
| `CutPath.CutKeepsBefore` | Exercises/Exercise19/inode.c:1110-1191 | If nothing mapped lies between the shared path and the cut, sweeping to the right of the shared path removes exactly what is not before the cut. |
| `CutPath.NoneEmptyKept` | Exercises/Exercise19/inode.c:975-1022 | The sweep leaves no indirect block empty, given that the one kept last still has a pointer to the left. |
| `Truncate.AllZeroes` | Exercises/Exercise19/inode.c:933-939 | True exactly when every pointer of the range is zero. |
| `Truncate.LeftIsEmpty` | Exercises/Exercise19/inode.c:999-1000 | The climb over blocks with nothing to the left of the path. |
| `Truncate.FindLast` | Exercises/Exercise19/inode.c:975-1000 | The last partial branch: nothing is mapped to the left below it, and where it stops there is a pointer to keep. |
| `Truncate.FindShared` | Exercises/Exercise19/inode.c:975-1022 | The boundary branch, and the detached top if the whole branch goes: the slot is cleared in one case and only shifted in the other. |
| `Truncate.CutBranch` | Exercises/Exercise19/inode.c:1141-1159 | The shared branch freed from its top down, each level to the right of the path. |
| `Truncate.TruncateBlocks` | Exercises/Exercise19/inode.c:1110-1191 | To any offset: the map is the old one below ceil(offset/blocksize) and empty from there. Exactly the blocks no longer reached are freed, each once; bitmaps, counts and charge agree; no reached indirect block is left empty if none was; to 0, nothing is left. The file's window leaves the tree, and no other, unless the offset is behind all blocks a file can have: then the tree stays as it is. |
| `Truncate.EvictInode` | Exercises/Exercise19/inode.c:71-104 | Without links the inode ends up with no blocks and nothing mapped; with links it keeps its blocks and its map. Its window leaves the tree either way. |
| `GetBlocks.BlksToAllocate` | Exercises/Exercise19/inode.c:359-390 | A run no longer than asked, than the node allows, and than the empty slots that follow. |
| `GetBlocks.AskFor` | Exercises/Exercise19/inode.c:359-390 | The number asked for is what the caller wants, or what the node has left, or the number of blocks up to the next one that is mapped. |
| `NewBranch.Request` | Exercises/Exercise19/inode.c:411-437 | One request for all that is missing: ENOSPC exactly if the unused blocks, before any were taken, are no more than those taken and the reserve. |
| `NewBranch.AllocBlocks` | Exercises/Exercise19/inode.c:396-447 | The indirect blocks and a run of data blocks, all fresh and distinct, charged exactly; with a quota of n requests and u unused blocks it fails only with EDQUOT and n no more than the missing indirect blocks, or with ENOSPC and u no more than those and the reserve; the run is as long as asked or ends where the allocator has to stop. A failure gives every block back. |
| `NewBranch.BuildBranch` | Exercises/Exercise19/inode.c:474-533 | The new blocks are linked as a chain of otherwise empty nodes that ends in the run; it fails exactly if there is memory for fewer buffers; no other block is written. |
| `NewBranch.Abandon` | Exercises/Exercise19/inode.c:535-542 | A branch that cannot be finished is given back whole. |
| `NewBranch.AllocBranch` | Exercises/Exercise19/inode.c:474-542 | Both together: a complete branch that nothing points at yet, or no block taken, and the latter only for want of quota, memory or blocks. |
| `Splice.SpliceBlocks` | Exercises/Exercise19/inode.c:556-599 | Splicing adds exactly the branch's blocks to the file, and lookups change only where the branch is. |
| `Splice.SpliceMap` | Exercises/Exercise19/inode.c:556-599 | The map gains exactly the run at its place. |
| `Splice.SpliceNoneEmpty` | Exercises/Exercise19/inode.c:556-599 | No indirect block is empty after a splice if none was before. |
| `GetBlocks.AllocAndSplice` | Exercises/Exercise19/inode.c:715-761 | Allocation and splice in a whole file system: all or nothing. |
| `GetBlocks.MapMore` | Exercises/Exercise19/inode.c:645-668 | The contiguous blocks that follow in the same node, and no block fewer than there are, up to the count asked for. |
| `GetBlocks.GetBlocks` | Exercises/Exercise19/inode.c:619-776 | Refines the map. A lookup returns the longest run it may, or 0 on a hole. A create adds exactly n fresh consecutive blocks and changes no other mapping; n is what was asked for, or ends at the node's end, before a mapped block, or where the allocator has to stop. It fails only for want of quota, memory or blocks for the indirect blocks that are missing, and then leaves tree, charge and free counts as they were; EIO exactly out of range; the boundary flag exactly at a boundary. |
| `Volume.OneOwner` | Exercises/Exercise19/inode.c:619-776 | If the used blocks balance with metadata and files, each is reached at one place of one file. |
| `Volume.BalancedAfterCut` | Exercises/Exercise19/inode.c:1110-1191 | A cut of one file keeps the balance. |
| `Volume.BalancedAfterGrowth` | Exercises/Exercise19/inode.c:619-776 | Growth by fresh blocks keeps the balance. |
| `Volume.TruncateFile` | Exercises/Exercise19/inode.c:1110-1191 | Among any number of files: the one is cut and gives up its window, the others map as before, the volume stays consistent. |
| `Volume.FillFile` | Exercises/Exercise19/inode.c:619-776 | Among any number of files: the one gets what GetBlocks promises of it, the others map as before, the volume stays consistent. |
| `Volume.EvictFile` | Exercises/Exercise19/inode.c:71-104 | A file without links leaves the volume, and its blocks and window with it; the others, and one with links, map as before. |
| `Volume.RunOps` | Exercises/Exercise19/inode.c:619-776 | Over any run of mappings, truncates and evictions on any files: each step does to the maps what the operation is for, a create failing only for want of quota, memory or blocks; the set bits are exactly the metadata and the blocks reached from the inodes, each at one place of one file; charges equal reached blocks; no block is freed that was not in use; windows are exclusive. |
| `Volume.RunFromNothing` | Exercises/Exercise19/inode.c:619-776 | The same from a volume that is built and has no files: the states that runs start from exist. |
| `ByteBuffer.MemMove` | Exercises/Exercise19/Unused/xattr.c:535-559 | memmove: the destination holds what the source held, even if they overlap. |
| `XattrLayout.CompareOrder` | Exercises/Exercise19/Unused/xattr.c:424-430 | The order of the entries (index, name length, name) is transitive; with CompareSwap it is a strict order. |
| `XattrLayout.CompareSwap` | Exercises/Exercise19/Unused/xattr.c:424-430 | It is antisymmetric. |
| `XattrLayout.AttrAt` | Exercises/Exercise19/Unused/xattr.c:144-228 | In a well-formed block an entry's value is what its key reads as. |
| `XattrBlock.SearchKey` | Exercises/Exercise19/Unused/xattr.c:405-432 | The walk over the entries: the entry, or the place where it belongs, and the lowest value so far; a malformed block is found out. |
| `XattrBlock.SearchEnd` | Exercises/Exercise19/Unused/xattr.c:433-448 | The rest of the walk: the end of the entries and the start of the values, between which the free space is. |
| `XattrBlock.GetValue` | Exercises/Exercise19/Unused/xattr.c:144-228 | get returns exactly the attribute: its value, ENODATA if there is none, ERANGE if the buffer is too small. |
| `XattrEdit.InsertName` | Exercises/Exercise19/Unused/xattr.c:531-539 | A new entry keeps the block well formed and adds just an empty attribute. |
| `XattrEdit.RemoveName` | Exercises/Exercise19/Unused/xattr.c:574-581 | Removing an entry without a value removes just that attribute. |
| `XattrValue.CutOutValue` | Exercises/Exercise19/Unused/xattr.c:558-573 | Taking out a value, with the offsets of those below it moved up, leaves every other attribute and an empty one. |
| `XattrValue.GiveValue` | Exercises/Exercise19/Unused/xattr.c:584-596 | Giving a value changes just that attribute. |
| `XattrValue.OverwriteValue` | Exercises/Exercise19/Unused/xattr.c:548-556 | Overwriting a value of the same padded size changes just that attribute. |
| `HashMix.XorBit` | Exercises/Exercise19/Unused/xattr.c:968-983 | The exclusive or of two numbers, bit by bit. |
| `HashMix.MixIs` | Exercises/Exercise19/Unused/xattr.c:968-983 | A round of the hash: without a new word it is hash * 2^shift % 2^32 + hash / 2^(32-shift), and the word is added to that bit by bit, without carries. |
| `HashMix.MixKeepsHash` | Exercises/Exercise19/Unused/xattr.c:968-983 | A round loses nothing: different hashes stay different under the same word. |
| `HashMix.MixKeepsWord` | Exercises/Exercise19/Unused/xattr.c:968-983 | Different words make the same hash different. |
| `XattrHash.AttributesDiffer` | Exercises/Exercise19/Unused/xattr.c:956-984 | Values of the same length that differ in one byte have different entry hashes. |
| `XattrHash.KeysDiffer` | Exercises/Exercise19/Unused/xattr.c:956-984 | So have names of the same length that differ in one byte. |
| `XattrHash.HashOfTwo` | Exercises/Exercise19/Unused/xattr.c:956-984 | The hash of a name of two characters with a value of two bytes, computed by hand: the order of the parts and the shifts by 5 and 16. |
| `XattrHash.MixedDiffer` | Exercises/Exercise19/Unused/xattr.c:996-1017 | Blocks that differ in the hash of one entry have different mixed hashes. |
| `XattrWrite.InsertNameAt` | Exercises/Exercise19/Unused/xattr.c:531-539 | The bytes after the moves and stores are those of the block with the new entry. |
| `XattrWrite.RemoveNameAt` | Exercises/Exercise19/Unused/xattr.c:574-581 | The bytes after the move and the clearing are those of the block without the entry. |
| `XattrWrite.ShiftOffsets` | Exercises/Exercise19/Unused/xattr.c:564-572 | The loop over the entries moves exactly the offsets below the value that went. |
| `XattrWrite.RemoveValueAt` | Exercises/Exercise19/Unused/xattr.c:558-573 | The bytes after the moves are those of the block without the value, still packed and with a cleared gap. |
| `XattrWrite.GiveValueAt` | Exercises/Exercise19/Unused/xattr.c:584-596 | The bytes after the copy are those of the block with the value, padded with zeros. |
| `XattrWrite.OverwriteValueAt` | Exercises/Exercise19/Unused/xattr.c:548-556 | The bytes after the copy in place are those of the block with the new value. |
| `XattrHash.EqualEntries` | Exercises/Exercise19/Unused/xattr.c:956-1017 | In blocks whose hashes are right, the attributes determine the order of the entries and all their hashes: blocks with the same attributes compare as equal. |
| `XattrHash.SameSeal` | Exercises/Exercise19/Unused/xattr.c:996-1017 | Such blocks have the same block hash. |
| `XattrSet.CheckIsExact` | Exercises/Exercise19/Unused/xattr.c:447-481 | The test of the free space fails exactly when the new layout is larger than the block. |
| `XattrSet.InsertAttr` | Exercises/Exercise19/Unused/xattr.c:531-596 | Adding an attribute in place: well formed, just this attribute changed, and no other hash made wrong. |
| `XattrSet.ReplaceAttr` | Exercises/Exercise19/Unused/xattr.c:540-596 | Replacing, resizing or removing an attribute in place: well formed, just this attribute changed, and no other hash made wrong. |
| `XattrSet.Rehash` | Exercises/Exercise19/Unused/xattr.c:996-1017 | The entry's hash is that of its bytes, the block's the mix of its entries' or 0 if one of those is 0; no attribute and no other hash changes. |
| `XattrShare.Edit` | Exercises/Exercise19/Unused/xattr.c:531-606 | One attribute is changed and no other, the count is kept, and afterwards every hash is right, so that the invariant behind the cache holds again. |
| `XattrShare.CompareBlocks` | Exercises/Exercise19/Unused/xattr.c:855-886 | 0 exactly for two blocks with the same entries and values. |
| `XattrShare.Store.CacheFind` | Exercises/Exercise19/Unused/xattr.c:896-950 | A block for sharing is found if and only if the cache has one with the same attributes, a hash that is not 0 and room for a reference; the one found has the same entries. |
| `XattrShare.Store.Switch` | Exercises/Exercise19/Unused/xattr.c:692-693 | The inode points at the new block, and only the reference to the old one is left to drop. |
| `XattrShare.Store.Drop` | Exercises/Exercise19/Unused/xattr.c:711-744 | A block is freed exactly when its last reference goes. |
| `XattrShare.Store.Obtain` | Exercises/Exercise19/Unused/xattr.c:632-690 | The same block, a shared one or a new one, with the attributes asked for; no new block if a cached one can be shared; in place EDQUOT exactly if there is such a one and no quota; a failure leaves the store as it was. |
| `XattrShare.TwinIsCopy` | Exercises/Exercise19/Unused/xattr.c:632-655 | Before the change it can be told whether the changed block will be found to have a copy. |
| `XattrShare.Store.Set` | Exercises/Exercise19/Unused/xattr.c:360-618 | Changes just the one attribute of the one inode; ENODATA, EEXIST, ERANGE exactly as flags, presence and sizes say, ENOSPC if there is no room or no block, EDQUOT and ENOMEM only for want of quota and memory; with all of these it succeeds. A set that fails changes something if and only if, before it, the quota is exhausted, the block is the inode's alone, the request is in order and fits, the value is a new one, and the cache offers another block with the attributes that the inode would then have. |
| `XattrSpoil.FailsWithEffect` | Exercises/Exercise19/Unused/xattr.c:598-655 | From an empty store: an attribute that can be read is to be removed, which fails with EDQUOT, and it cannot be read afterwards. |
| `XattrShare.Store.Get` | Exercises/Exercise19/Unused/xattr.c:144-228 | Reads the inode's attribute through its possibly shared block. |
| `XattrShare.Store.DeleteInode` | Exercises/Exercise19/Unused/xattr.c:758-819 | The inode has no attributes and no charge left, no other inode changes, and the block goes if this was its last reference. |
| `XattrShare.RunOps` | Exercises/Exercise19/Unused/xattr.c:624-819 | Sharing is invisible: over any run of sets and deletes on any inodes, every inode's attributes are at every moment those of an independent map, and each block's reference count is the number of inodes that point at it; the operations applied to those maps are those that succeed and those that fail in a state that meets the condition of Set. |
| `Acl.CountOfSize` | Exercises/Exercise19/Unused/acl.h:26-52 | The count worked out from a size is the count the size was made from. |
| `Acl.SizeOfCount` | Exercises/Exercise19/Unused/acl.h:26-52 | The size made from a count worked out is the size it was worked out from. |
| `Acl.ShapedFits` | Exercises/Exercise19/Unused/acl.h:26-52 | Size and count agree for a list exactly if it is short entries up to four, or has exactly four short ones. |
| `Acl.FromDisk` | Exercises/Exercise19/Unused/acl.c:18-86 | Accepts exactly the encodings of lists of that shape, and returns the list. |
| `Acl.ToDisk` | Exercises/Exercise19/Unused/acl.c:91-137 | Succeeds exactly on known tags, and writes the encoding. |
| `Acl.StoreAgain` | Exercises/Exercise19/Unused/acl.c:18-137 | Every byte string that is accepted as a non-empty list is reproduced exactly. |
| `Acl.LoadAgain` | Exercises/Exercise19/Unused/acl.c:18-137 | A list is read back as itself exactly if it has the shape; others are refused. |
| `DirPage.CheckPage` | Exercises/Exercise19/dir.c:113-195 | Accepts a page exactly if it is tiled by sound records that do not cross chunks; gives that tiling. |
| `DirPage.OneTiling` | Exercises/Exercise19/dir.c:113-195 | The bytes of a page determine its tiling. |
| `DirEdit.FindInPage` | Exercises/Exercise19/dir.c:387-402 | The first record in use with the name, or none. |
| `DirEdit.FindSlot` | Exercises/Exercise19/dir.c:503-543 | The first record with room, unless the name or the end of the directory comes first; past the end of a page only if it is full. |
| `DirWrite.CutsSoundly` | Exercises/Exercise19/dir.c:553-558 | The page's bytes after an entry has been put into a record have a tiling by sound records, which is what the page check asks for, if and only if that record was free or has a name. |
| `DirWrite.PutEntry` | Exercises/Exercise19/dir.c:547-563 | The bytes are those of the page with the entry in that record; the page is acceptable again if and only if the record was free or has a name, and then its records are the old ones with that one split or filled. |
| `DirWrite.AcceptedThenRefused` | Exercises/Exercise19/dir.c:113-195 | The page check accepts a page that is one nameless entry, and refuses it once an entry has been added. |
| `DirWrite.PutLive` | Exercises/Exercise19/dir.c:547-563 | The entry that was there stays, and the new one follows it. |
| `DirWrite.AddChunk` | Exercises/Exercise19/dir.c:516-523 | A chunk behind the end becomes one record with the entry; without room, the directory's own bytes are as before. |
| `DirDrop.ChunkStart` | Exercises/Exercise19/dir.c:585-602 | Where a chunk starts a record starts, so the walk from there is over records. |
| `DirDrop.DropEntry` | Exercises/Exercise19/dir.c:581-619 | The page with the entry joined to its predecessor, or free at the start of its chunk, is tiled again. |
| `DirDrop.DroppedLive` | Exercises/Exercise19/dir.c:581-619 | Exactly the one entry is gone. |
| `DirDrop.PointEntry` | Exercises/Exercise19/dir.c:458-477 | The page with the entry pointed elsewhere is tiled as before. |
| `DirDrop.MidPlaced` | Exercises/Exercise19/dir.c:547-563 | Records replaced by others of the same length leave what is named before and behind them where it is. |
| `DirTable.TableInsert` | Exercises/Exercise19/dir.c:482-575 | A new entry anywhere in the list is the insertion of its name into the table. |
| `DirTable.TableWithout` | Exercises/Exercise19/dir.c:581-619 | An entry taken out of the list is the removal of its name from the table. |
| `Directory.Directory.FindEntry` | Exercises/Exercise19/dir.c:361-424 | Table lookup, for every value of the start hint; the hint moves only on success. |
| `Directory.Directory.InodeByName` | Exercises/Exercise19/dir.c:438-450 | The inode in the table, or 0. |
| `Directory.Directory.AddLink` | Exercises/Exercise19/dir.c:482-575 | Table insertion, for a name that is not there, into the first record that has room; the BUG is not reached; the directory grows, or without room for that the call fails, exactly if no record has room; what was found before stays where it was. |
| `Directory.Directory.DeleteEntry` | Exercises/Exercise19/dir.c:581-619 | Table removal. |
| `Directory.Directory.SetLink` | Exercises/Exercise19/dir.c:458-477 | The name stands for the other inode; everything else stays, and where it was. |
| `Directory.Directory.Rename` | Exercises/Exercise19/namei.c:348-393 | Within one directory: the old entry's place, found first, is still its place after the new name is in, and the table is as renamed. |
| `Directory.Directory.Reread` | Exercises/Exercise19/dir.c:197-214 | Every page that the operations leave is accepted when read back, with the same records. |
| `Directory.Directory.constructor` | Exercises/Exercise19/dir.c:624-660 | A new directory's table is `.` and `..`. |
| `Directory.Directory.EmptyDir` | Exercises/Exercise19/dir.c:665-714 | True exactly if there is nothing but `..` and a `.` that is the directory itself. |
| `DirRead.ValidateEntry` | Exercises/Exercise19/dir.c:240-251 | The first record at or behind the offset. |
| `DirRead.LiveFromCut` | Exercises/Exercise19/dir.c:284-351 | What is left from a position is what the records from there on say. |
| `Directory.Directory.ReadDir` | Exercises/Exercise19/dir.c:284-351 | From any position (validated if the directory may have changed) the sink gets the next entries, and the new position is exactly where the rest starts. |
| `Directory.Directory.ReadInParts` | Exercises/Exercise19/dir.c:284-351 | Stopped anywhere and resumed any number of times, an unchanged directory is read as in one pass. |
| `Links.DirLinkCount` | Exercises/Exercise19/namei.c:233-323 | A directory's link count is two more than the number of its subdirectories. |
| `Links.CreateSound` | Exercises/Exercise19/namei.c:37-49 | A new inode with one entry keeps counts and tree right. |
| `Links.LinkSound` | Exercises/Exercise19/namei.c:209-231 | One more entry and one more link keep them right. |
| `Links.UnlinkSound` | Exercises/Exercise19/namei.c:281-307 | One entry less and one link less keep them right. |
| `Links.MkdirSound` | Exercises/Exercise19/namei.c:233-279 | A new directory with two links, and one more for its parent, keeps them right. |
| `Links.EmptyIsBare` | Exercises/Exercise19/dir.c:665-714 | In a sound tree kr_empty_dir holds exactly of directories with just their two first entries. |
| `Links.RmdirSound` | Exercises/Exercise19/namei.c:309-323 | Removing an empty directory, with its two links and one of its parent, keeps them right. |
| `Links.MoveSound` | Exercises/Exercise19/namei.c:378-403 | Moving a directory, with `..` and a link passed from the old parent to the new, keeps them right; the tree stays connected. |
| `Moves.RenameSound` | Exercises/Exercise19/namei.c:325-404 | A rename, with or without something replaced, keeps them right. |
| `Namespace.Namespace.Create` | Exercises/Exercise19/namei.c:94-117 | The new name stands for the new inode; a failure undoes everything. |
| `Namespace.Namespace.Symlink` | Exercises/Exercise19/namei.c:158-207 | The same, with one more way to fail. |
| `Namespace.Namespace.Tmpfile` | Exercises/Exercise19/namei.c:119-137 | An inode without links or name, which can be linked later. |
| `Namespace.Namespace.Link` | Exercises/Exercise19/namei.c:209-231 | One more name and link; a failure takes the link back. |
| `Namespace.Namespace.Mkdir` | Exercises/Exercise19/namei.c:233-279 | The new directory, entered and counted; a failure at any of three places undoes everything. |
| `Namespace.Namespace.UnlinkFile` | Exercises/Exercise19/namei.c:281-307 | The name is gone, and one link. |
| `Namespace.Namespace.Rmdir` | Exercises/Exercise19/namei.c:309-323 | Succeeds exactly on an empty directory, which is then gone; otherwise nothing changes. |
| `Namespace.Namespace.Rename` | Exercises/Exercise19/namei.c:325-417 | The tables are as renamed; ENOTEMPTY exactly if a directory would replace one that is not empty; a failure leaves everything as it was. |
| `Namespace.Namespace.Below` | Exercises/Exercise19/namei.c:325-329 | The kernel's ancestor test decides whether the move is outside the directory. |
| `Namespace.Namespace.RunOps` | Exercises/Exercise19/namei.c:37-417 | Over any run of operations: each is done whole or not at all, and done exactly if it is let through, not barred and has room; every link count is the number of entries that name the inode, `.` and `..` included; every directory but the root is entered once, in the directory its `..` names; every directory is connected to the root. |
| `Mounted.Mounted.Create` | Exercises/Exercise19/namei.c:94-117 | On pages: the entry is in them, with the type of its inode, exactly if the operation succeeds, and then the table they hold is the old one with that entry; every directory keeps pages of its own. |
| `Mounted.Mounted.Link` | Exercises/Exercise19/namei.c:209-231 | The same for one more name, whose entry may find room in a page although no block is granted. |
| `Mounted.Mounted.Unlink` | Exercises/Exercise19/namei.c:281-307 | The same for an entry that goes. |
| `Mounted.Mounted.Mkdir` | Exercises/Exercise19/namei.c:233-279 | The new directory gets its page and its entry, or neither. |
| `Mounted.Mounted.Rmdir` | Exercises/Exercise19/namei.c:309-323 | Refused exactly if the pages hold more than `.` and `..`. |
| `Mounted.MovedIsRenamed` | Exercises/Exercise19/namei.c:325-417 | Entering the new name, removing the old one, pointing `..` and forgetting the replaced directory, in that order, is the renaming of the tables. |
| `Mounted.Mounted.Rename` | Exercises/Exercise19/namei.c:325-417 | On pages: the old entry, whose place is found first, is removed there after the new one has been entered, which may be in the same page, with the type of the inode that moves; the tables are as renamed, or as before if it fails. |
| `Mounted.Mounted.RunOps` | Exercises/Exercise19/namei.c:37-417 | Over any run on pages: each operation is done whole or not at all; what the pages hold are the tables, so that link counts are the numbers of entries in pages that name the inodes, and directories are entered once, where their `..` says, and connected to the root; every entry has the type of the inode it names. |
| `Ialloc.Pigeonhole` | Exercises/Exercise19/ialloc.c:202-226 | Some group has at least the average of free inodes, unless none is free. |
| `Ialloc.Inodes.FindGroupDir` | Exercises/Exercise19/ialloc.c:202-226 | -1 exactly if no inode is free; otherwise, of the groups no worse than average, the first of those with the most free blocks. |
| `Ialloc.Inodes.FindSpread` | Exercises/Exercise19/ialloc.c:279-308 | For top-level directories: of the qualified groups the first, from the start, of those with the fewest directories. |
| `Ialloc.Inodes.FindFine` | Exercises/Exercise19/ialloc.c:327-341 | The first group, going around from the parent's, that meets the conditions. |
| `Ialloc.MaxDebt` | Exercises/Exercise19/ialloc.c:319-325 | The bound on debts is between 1 and 255. |
| `Ialloc.MaxDebtIs` | Exercises/Exercise19/ialloc.c:319-325 | The bound on debts is the largest number, from 1 to 255, of directories whose cost in blocks and in inodes a group can bear. |
| `Ialloc.DebtWorkedOff` | Exercises/Exercise19/ialloc.c:538-546 | A debt goes up with a directory and down with another inode, one undoing the other, within 0 and 255. |
| `Ialloc.Inodes.FindGroupOrlov` | Exercises/Exercise19/ialloc.c:256-366 | For any values of the approximate counters: -1 exactly if no inode is free; a top-level directory is spread, another goes to the first group that meets the conditions; failing that, the first with an average number of free inodes, or with any. |
| `Ialloc.Inodes.FindGroupOther` | Exercises/Exercise19/ialloc.c:368-426 | -1 exactly if no inode is free; the parent's group if it has an inode and a block; else the first group with both among those 2^k - 1 places from the sum of the parent's group and number, 2^(k-1) below the number of groups; else the first with an inode after the parent's. |
| `Ialloc.Inodes.NewInode` | Exercises/Exercise19/ialloc.c:428-545 | Fails exactly if every bit is set; otherwise takes the first clear bit of the group that the policy for the kind of inode chooses, a number in range, and the counts, directories and debt of the group follow. |
| `Ialloc.Inodes.FreeInode` | Exercises/Exercise19/ialloc.c:101-149 | Clears the bit and raises the group's count of an inode in use; reserved, missing and free ones are left alone; the volume's counter of free inodes is not raised. |
| `Ialloc.Inodes.RunOps` | Exercises/Exercise19/ialloc.c:63-149 | Over any run: an operation marks or clears just one inode's bit, and a new inode is had if one is free; each group's count is its clear bits, its directories are counted, debts stay within 0 and 255, and the counter of free inodes never exceeds the sum of the groups. |

## Left out

- Reading and writing the device: buffers and pages are arrays, and reads succeed; I/O errors, DAX, writeback, syncing and dirty marking are not modelled.
- Truncate.TruncateBlocks: of ordinary files only; files that are append-only or immutable, and inodes of other kinds, are turned away before (`Exercises/Exercise19/inode.c:1193-1214`).
- Branch.GetBranch: run by itself, so the branches for a changed chain are dead there; Lockless models the concurrent reader, with writers reduced to their memory accesses.
- GetBlocks.GetBlocks: the goals of kr_find_near and kr_find_goal are arbitrary, the re-read after a failed lookup is sequential, and zeroing for DAX is left out.
- Allocator.Allocator.NewBlocks: the retry after losing a race for a bit is dead, and the right to reserved blocks is a parameter.
- NewBranch.AllocBlocks: quota is a number of requests that are granted, not of blocks, and memory a number of buffers; what other processes use of them meanwhile is in those numbers.
- Reservation.WindowTree.Search: the tree is a sorted sequence, and the shape that the search descends is arbitrary; rotations and colours are not modelled.
- XattrShare.Store.CacheFind: the cache forgets a block only when the block is changed or freed; that the kernel may drop its entries to regain memory is left out.
- ext2_xattr_list, the handlers for the attribute namespaces, symlink.c and file.c: they forward, or list what get would read.
- Directory.Directory.AddLink: a name that is already there is outside the contract; the source notices it only if it meets it before room for it.
- Directory.Directory.ReadDir: entries are handed over with their stored type; its translation to a `d_type` is a table that is left out, as are records for 64K pages.
- Mounted.Mounted.RunOps: a directory's pages are its own and are not tied to the block map of its inode. Timestamps, owners and modes are left out.
- Mounted.Mounted.Rename: the `..` of a directory that moves is looked up by its name; the source takes the second record of the first page, where kr_make_empty has put it.
- Namespace.Namespace.Rename: the refusal of unknown flags and the errors for unreadable directories are left out.
- Ialloc.Inodes.NewInode: a number out of range, which the source reports after it has set the bit, does not arise while such numbers are marked; racing for a bit is left out.
- Endianness conversion, byte order of 64K records, mount options, ioctl flags, NFS export and statfs.
- The remaining checks of kr_fill_super and kr_check_descriptors: they would add easy members; what they establish is assumed in Allocator.LaidOut.
- Exercises 1 to 17 and `myfs/`: thin wrappers around kernel calls.
