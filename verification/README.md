# fs5600: a verified model of the file system

fs5600 is a small Unix-like file system on a block image: block 0 is the superblock, block 1 the
allocation bitmap, block 2 the inode of `/`. An inode fills one block and holds 1019 direct
pointers; a directory keeps 128 slots in one block. This project models the file-system calls of
`fs5600.c`, the two Python tools that build and inspect images, and the whole-disk invariant they
all rely on, and proves that the array of blocks behaves as a map from paths to files and
directories, over every run.

There are two levels.

* **Values.** `Volume.Image` is a disk as a value: the set of marked blocks and the sequence of
  typed blocks (inode, directory, data). `Volume.WellFormed(img, own)` is the whole-disk invariant:
  the ghost map `own` gives each block in use exactly one owner (the root, one directory slot with
  its depth, one directory's table or one of its further blocks, or one live pointer of one file),
  owners and blocks refer to each other, every owned block is marked, and names in a directory
  differ. `Volume.Abs(img)` is
  what a user sees: an infinite map from component lists to `File(attr, bytes)` or
  `Directory(attr, size)`. Each call is a function on images, branch for branch as in the C code
  (`Operations`, `Writing`, `Queries`); the lemmas say what it answers, what it does to the tree,
  which inode every path leads to afterwards, and that the invariant survives. `Calls.Seen` is the
  abstract file system, the tree and the number of free blocks; every answer is a function of it.
* **The running file system.** `FileSystem.Disk` is a class over a bitmap block and an array of
  blocks. Its methods take path strings, scan slots, bits, pointers and bytes in loops, and update
  the array in place. Each method is proved to compute exactly the image function of the same
  call. `ImageWalk.Walker` and `ImageBuilder.Builder` do the same for the recursion of
  `read-img.py` and the filling loop of `gen-disk.py`.

| module | contents |
|---|---|
| `Bits`, `Layout`, `Volume` | words as numbers; records and constants; images, owners, the invariant, the abstract tree |
| `Lookup`, `LookupErrors`, `Paths`, `Bitmaps` | path walk, `path2inum` and its error codes; path strings; bytes and 32-bit words of the bitmap |
| `Operations`, `WriteLoop`, `Writing`, `Queries` | the calls as functions on images |
| `TreeEdits`, `Linking`, `Unlinking`, `Rewriting` | one changed entry or inode: invariant and tree |
| `Creation`, `Deletion`, `Renaming`, `Updates`, `Writing` | exact answers and effects of each call |
| `Numbers` | the answers of all calls once more, with every constant spelled out |
| `Calls`, `Counting`, `History` | the abstract file system, free counts, and refinement by every run |
| `Space`, `Undo`, `Chunking` | reachability and leaks, calls that undo each other, chunked writes |
| `Departures` | concrete disks on which the code does not keep its comments' promises |
| `FileSystem`, `ImageWalk`, `ImageBuilder`, `BuiltImage` | the imperative code, and the image the builder writes |

## How the code departs from its comments

The model follows the code. Where a promise fails, the exact condition is proved, and a lemma in
`Departures` shows it failing on a concrete well-formed disk.

* A failed allocation is promised to answer ENOSPC. No caller notices it: `create` and `mkdir` do
  not look, and `fs_write` compares an unsigned pointer with `<= 0` (`fs5600.c:1182`). The negative
  block number then reaches `assert(lba > 0)` (`misc.c:49`), which stops the process. Calls
  therefore answer `Ret(code)` or `Aborted`, and the code lemmas say when it is which
  (`FullDiskAdd`, `FullDiskWrite`).
* `create` and `mkdir` allocate before they look for a free slot, so a full parent directory costs
  one or two blocks; an aborted `mkdir` or write keeps what it had allocated; `rmdir` frees only
  the first block of a directory. `Space.StepLeaks` lists all leaking cases and proves there are no
  others (`CrowdedCreate`, `TightMkdir`, `TightWrite`, `WideRmdir`).
* `rmdir` of an empty root answers 0 and frees block 2: `Deletion.RmdirKeepsIff` (`EmptyRoot`).
* `rename` does not check the length of the new name: `Renaming.RenameKeepsIff` (`LongRename`).
* Path lookup answers ENOTDIR where ENOENT is promised in two cases, and `rename` then EINVAL for a
  missing source: `LookupErrors.LookupErrorExact` (`MissingBelow`, `LongOnTheWay`).
* `statfs` wraps when more blocks are marked than the disk has, which `alloc_blk` allows:
  `Queries.StatfsExact` (`FullDiskStatfs`).
* The access time `getattr` reports is the creation time, not the modification time as the comment
  at `fs5600.c:278` asks; they agree exactly when the two stored times do: `Queries.GetattrExact`.
* A write past the end answers 0, not EINVAL (`WritePastEnd`); `create` and `mkdir` leave the
  parent's modification time alone.
* `gen-disk.py` prints double counts of blocks but overwrites a taken inode number silently:
  `ImageBuilder.PrintEnoughIff` says for which descriptions its silence means that nothing was
  counted twice, `ImageBuilder.PrintIsNotEnough` gives one on which it does not.

## Model

| member | source | states |
|---|---|---|
| Layout.BlocksForLeast | fs5600.h:18 | The rounding-up division is the least block count that holds a size |
| Layout.ModeKinds | fs5600.c:666-682 | The mode chmod stores keeps the inode's kind; the masks of create and mkdir make a file and a directory |
| Layout.StoredModes | fs5600.c:676-677 | The stored modes are the kind, or the mode before, with the low twelve bits asked for |
| Layout.WithLowValue | fs5600.c:676-677 | As numbers: the quotient by 0x1000 of the one, the remainder of the other |
| Layout.KindValues | diskfmt.py:39-47 | The kind is the number above the low twelve bits: 4 for a directory, 8 for a file |
| Lookup.ChildBySlot | fs5600.c:213-219 | In any directory of a well-formed disk a name is found at the one slot that carries it, whatever the slot order |
| Lookup.WalkNode | fs5600.c:155-241 | A path that resolves reaches an owned inode whose depth is the path's length |
| Lookup.WalkUnique | fs5600.c:155-241 | No inode is reached along two paths: the directory graph is a tree rooted at block 2 |
| Lookup.WalkThroughDirs | fs5600.c:231-236 | Every prefix of a path that resolves is a directory, and leads on by its slot |
| Lookup.WalkNames | fs5600.c:186-189 | Every component of a path that resolves is a legal name of 1 to 27 characters |
| Lookup.ResolveFromWalk | fs5600.c:184-238 | From any directory reached so far the loop of path2inum ends where the abstract walk ends, or in an error code when the walk fails |
| Lookup.ResolveExact | fs5600.c:155-241 | Sound and complete at every depth: path2inum answers n > 0 exactly when the path leads from the root to inode n through directories |
| TreeEdits.WalkAdded | fs5600.c:791-813 | Entering a childless inode under a new name adds one path and changes no other walk |
| TreeEdits.WalkRemoved | fs5600.c:1011-1024 | Clearing the entry of a childless inode removes one path and changes no other walk |
| TreeEdits.WalkRenamed | fs5600.c:635-647 | After a rename inside one directory every path resolves as its origin did: dst plus suffix as src plus suffix, nothing below src, all other paths as before |
| Operations.FirstFree | fs5600.c:74-87 | The block chosen is the least free one from 3 on, and there is none exactly when no data block is free |
| Linking.LinkedKeeps | fs5600.c:775-817 | Linking a fresh inode, with or without a table block, into a free slot keeps the invariant |
| Linking.LinkedAbs | fs5600.c:775-817 | Linking changes the abstract tree at exactly the new path; every other path keeps its inode |
| Creation.AbsWalk | fs5600.c:155-241 | The abstract tree holds a path exactly when path2inum resolves it, with the entity its inode stores |
| Creation.NewPlaceExact | fs5600.c:714-770 | A failed full lookup together with a parent that is a directory implies the name is unused there; otherwise the error is the one listed |
| Creation.NamesCount | fs5600.c:795-811 | A table holds as many names as slots exactly when it has no free slot |
| Creation.FullExact | fs5600.c:795-811 | The scan for a free slot fails exactly when 128 names lead on from the directory in the tree |
| Creation.CreateCode | fs5600.c:705-821 | The answer of create for every input is a function of the tree and the number of free blocks |
| Creation.CreateWorks | fs5600.c:705-821 | A successful create keeps the invariant and adds exactly one empty file, at the least free block; every other path keeps its inode |
| Creation.CreateMode | fs5600.c:779-781 | As a number the stored mode is 0x8000 plus the remainder by 0x1000 of the mode asked for |
| Creation.CreateFails | fs5600.c:705-821 | A failing create keeps the invariant, the tree and every path's inode, and marks one block exactly when it got past its checks with a block free |
| Creation.MkdirCode | fs5600.c:839-943 | The answer of mkdir for every input; it needs two free blocks |
| Creation.MkdirWorks | fs5600.c:839-943 | A successful mkdir keeps the invariant and adds exactly one empty directory; every other path keeps its inode |
| Creation.MkdirMode | fs5600.c:897-899 | As a number the stored mode is 0x4000 plus the remainder by 0x1000 of the mode asked for |
| Creation.MkdirFails | fs5600.c:839-943 | A failing mkdir keeps the invariant, the tree and every path's inode, and says which blocks stay marked |
| Rewriting.RewrittenKeeps | fs5600.c:1211-1216 | Rewriting an inode and its own live blocks keeps the invariant |
| Rewriting.RewrittenAbs | fs5600.c:1211-1216 | It changes the tree at that inode's path only, and no path's inode |
| Updates.ChmodWorks | fs5600.c:666-682 | chmod succeeds exactly on existing paths and changes the low twelve mode bits there, nothing else |
| Updates.ChmodMode | fs5600.c:676-677 | As a number the new mode has the remainder by 0x1000 asked for and the quotient it had |
| Updates.UtimeWorks | fs5600.c:1276-1302 | utime stamps existing files only and refuses the rest without a change |
| Updates.ExtentsOwned | fs5600.c:1004-1007 | The blocks the freeing loop names are exactly the live pointers the file owns |
| Updates.TruncateWorks | fs5600.c:1230-1262 | truncate to 0 empties an existing file, keeps its attributes, frees exactly its blocks; other lengths and paths are refused |
| Unlinking.UnlinkedKeeps | fs5600.c:1004-1024 | Dropping an entry with everything its inode owns keeps the invariant |
| Unlinking.UnlinkedAbs | fs5600.c:1011-1024 | Exactly the removed path leaves the tree, no sibling does; every other path keeps its inode |
| Deletion.SlotOfName | fs5600.c:1011-1022 | The slot cleared by inode number is the very slot the name walk resolved, and the only one with that inode or that name |
| Deletion.UnlinkWorks | fs5600.c:956-1033 | unlink removes exactly the named file, leaves every other path its inode, stamps its parent, frees exactly what the file owned; otherwise answers the listed code and changes nothing |
| Deletion.EmptyExact | fs5600.c:1092-1101 | The slot scan finds a table empty exactly when no path leads below the directory |
| Deletion.RmdirCode | fs5600.c:1043-1131 | The answer of rmdir for every input, read off the tree |
| Deletion.RmdirWorks | fs5600.c:1104-1131 | rmdir of an empty directory below the root removes exactly its path and frees its inode and table block; every other path keeps its inode |
| Deletion.RmdirKeepsIff | fs5600.c:1105-1108 | The disk stays well formed if and only if the call was not the removal of an empty root |
| Renaming.RelabelledKeeps | fs5600.c:635-647 | A slot given an unused name that fits keeps the invariant |
| Renaming.RelabelledAbs | fs5600.c:635-647 | The tree afterwards is the old one with the subtree at src moved to dst |
| Renaming.RenameWorks | fs5600.c:582-651 | The answer of rename for every input, read off the tree; on success the whole subtree moves, each path leading to the inode its origin led to, no block is marked or freed; anything else changes nothing |
| Renaming.RenameKeepsIff | fs5600.c:635-643 | The disk stays well formed if and only if rename did not store a name that does not fit its slot |
| WriteLoop.LiveBlock | fs5600.c:1178-1203 | In the middle of the write loop each pointer so far names an in-range marked data block that is not another owner's |
| WriteLoop.Distinct | fs5600.c:1178-1203 | The pointers in place during the loop are pairwise distinct |
| WriteLoop.TargetApart | fs5600.c:1180-1184 | A round writes an old live block when its index is below the old count, otherwise the lowest-numbered free one, at exactly the next index; every index is below 1019, and the block is never the inode, another file's, or another pointer's |
| WriteLoop.PutChunkKeeps | fs5600.c:1178-1203 | One round keeps the loop invariant: a contiguous prefix of distinct pointers |
| WriteLoop.PutChunkBytes | fs5600.c:1185-1199 | One round changes exactly the bytes of its chunk, whatever a recycled block held |
| WriteLoop.RunKeeps | fs5600.c:1178-1203 | The whole loop, stuck or not, touches only blocks the file owns or that were free |
| WriteLoop.RunBytes | fs5600.c:1178-1203 | After the loop each byte is the buffer's where it was written and the old one elsewhere |
| WriteLoop.RunSpace | fs5600.c:1178-1203 | The loop succeeds exactly when enough blocks are free and takes exactly the difference of the block counts |
| Writing.GrowExact | fs5600.c:1181 | The new owners are exactly the pointers between the old and the new count |
| Writing.WriteAnswers | fs5600.c:1144-1220 | The answer of write for every input is a function of the tree and the number of free blocks |
| Writing.WriteWorks | fs5600.c:1144-1220 | A write that fits makes the contents old[..off] + buf + old[off+len..], stamps the file, keeps the invariant and every other path, and takes the blocks of its growth |
| Writing.WriteAborts | fs5600.c:1181-1182 | A write that runs out of blocks keeps the invariant, the size and the attributes; the part inside the old size is written, every other path is untouched |
| Chunking.RunSplit | fs5600.c:1178-1203 | Running the loop over x and then y ends in the same blocks, pointers and marks as running it over x + y |
| Chunking.RunFrame | fs5600.c:1155-1216 | The loop never looks at the inode's own block, so caching the inode in memory is sound |
| Chunking.WriteSplit | fs5600.c:1144-1220 | Two adjacent writes leave exactly the disk of one, pointers, allocation order and slack bytes included |
| Chunking.ChunkedWrite | test2.c:772-784 | For every chunk size, writing in chunks leaves the disk of one write made at the last chunk's time |
| Queries.ReadExact | fs5600.c:502-553 | read delivers exactly contents[off..min(off+len, size)] of an existing file and refuses everything else |
| Queries.ReadAllExact | test1.c:159-173 | For every chunk size, reading until 0 terminates and delivers the whole file |
| Queries.GetattrExact | fs5600.c:282-302 | getattr reports attributes and size of the tree entry, the inode the path leads to, link count 1, the least sufficient block count (1 for a directory), and as access time the creation time, so the promised one exactly when the two agree |
| Queries.ListingExact | fs5600.c:470-488 | Each valid slot is listed, nothing else, and no name twice |
| Queries.ListingOrder | fs5600.c:470-488 | An entry emitted earlier stands in an earlier slot |
| Queries.ReaddirExact | fs5600.c:451-491 | readdir emits each child exactly once, in slot order, with the attributes getattr reports for the child's own path |
| Queries.StatfsExact | fs5600.c:346-385 | The reported size plus superblock and bitmap is the disk size; free count, owned blocks and leaked blocks add up to it if and only if no more blocks are marked |
| Queries.StatfsFree | fs5600.c:346-385 | The free count is the number of free blocks less those beyond the disk, modulo the word size |
| LookupErrors.LookupErrorExact | fs5600.c:108-241 | The code of a failed lookup, and exactly when it is the one the comment promises |
| LookupErrors.PathExact | fs5600.c:155-241 | A path resolves exactly when it is in the tree, and the code of a failed lookup is a function of the tree |
| Paths.TokensRender | fs5600.c:556-566 | Splitting a canonical path string gives back its components |
| Paths.TokensCanonical | fs5600.c:556-566 | Splitting any string gives non-empty components without slashes |
| Paths.ParentPrefix | fs5600.c:732-750 | The prefix whose length sums the component lengths plus one each plus one splits into exactly the parent's components |
| Paths.CleanString | fs5600.c:556-566 | Every string FUSE may pass is the canonical string of its components |
| Bitmaps.UsedExact | fs5600.c:59-62 | Block i is marked exactly when the value of byte i / 8, divided by 2 to the i % 8, is odd |
| Bitmaps.MarkedExact | diskfmt.py:26-29 | In the word view: exactly when the value of word i / 32, divided by 2 to the i % 32, is odd |
| Bitmaps.WordValue | diskfmt.py:24-25 | A word's value is that of its four bytes, lowest first |
| Bitmaps.BitEdits | fs5600.c:51-58 | Setting or clearing a bit changes that element of the marked set and no other |
| Bitmaps.BitSet | fs5600.c:51-53 | In place: the marked set gains exactly i |
| Bitmaps.BitClear | fs5600.c:55-57 | In place: the marked set loses exactly i |
| Bitmaps.SameBits | fs5600.c:59-62 | Two bitmaps that mark the same blocks are equal bit for bit |
| Bitmaps.SameView | diskfmt.py:26-29 | The 32-bit-word test reads the same bit as the byte test, little-endian |
| Bitmaps.SameSet | diskfmt.py:30-37 | The word setter gives the words of the byte setter's result |
| Bitmaps.SameSets | diskfmt.py:24-37 | Both views denote one set, and both setters change only that element |
| Counting.ExtentCount | fs5600.c:1004-1007 | The freeing loop frees as many distinct blocks as the size rounds up to |
| Counting.FreeStep | fs5600.c:705-1262 | The number of free blocks after any legal call, whatever it answers, is a function of the tree and the number before |
| History.StepRefines | fs5600.c:582-1302 | Every legal call keeps the invariant, gives the answer of the abstract step, makes its change to tree and free count, and leaves every path it does not concern its inode |
| History.HistoryRefines | fs5600.c:582-1302 | Over every run of the nine updating calls the disk stays one singly-owned tree, and all answers, the tree and the free count are those of the abstract run |
| Space.NodeReached | fs5600.c:155-241 | Every owned inode has a path that leads to it |
| Space.OwnedIffReached | fs5600.c:74-100 | The owned blocks are exactly the reachable ones, each reached along one path, and all are marked |
| Space.StepLeaks | fs5600.c:705-1220 | A call leaks a block exactly in four cases: full parent, mkdir with one free block, aborted write that had allocated, rmdir of a directory of more than one block; leaks never vanish |
| Space.HistoryLeaks | fs5600.c:582-1302 | A run leaves the leaked blocks as they were exactly when no call of the abstract run is a leaking case |
| Space.NoLeakMarks | fs5600.c:74-100 | Without leaks the marked blocks are exactly {0, 1} and the owned ones |
| Undo.SpaceExact | fs5600.c:372-383 | A successful call changes the free count, and what statfs reports, by -1 for create, -2 mkdir, +2 rmdir, +1+ceil(size/4096) unlink, +ceil(size/4096) truncate, minus the growth for write, 0 otherwise |
| Undo.FileRun | fs5600.c:1144-1302 | Any run of writes, truncates, chmods and utimes on a file leaves every other block's owner, every other path and the leaks alone |
| Undo.CreateUseUnlink | fs5600.c:705-1033 | create, any such run and unlink restore the tree, the owners and the bitmap, the parent's time stamp aside |
| Undo.MkdirRmdir | fs5600.c:839-1131 | mkdir and rmdir restore the tree, the owners and the bitmap, the parent's time stamp aside |
| FileSystem.ScanName | fs5600.c:213-220 | The slot loop finds the first valid slot with the name, or none |
| FileSystem.ScanInode | fs5600.c:1011-1022 | The slot loop finds the first valid slot with the inode number, or none |
| FileSystem.ScanValid | fs5600.c:791-808 | The slot loop finds the first slot with the given valid bit, or none |
| FileSystem.Tokenise | fs5600.c:556-566 | The token loop delivers exactly the components |
| FileSystem.ParentPath | fs5600.c:732-750 | The length loop cuts the string to one that splits into the parent's components |
| FileSystem.FreshImage | disk2.in:12-18 | The smallest image is well formed, leaks nothing, and its tree is just the root |
| FileSystem.Disk.constructor | disk2.in:12-18 | The base case of every run: exactly blocks 0, 1, 2 and 399 are in use, the last two owned by the root |
| FileSystem.Disk.AllocBlk | fs5600.c:74-87 | The bit scan marks and answers the least free block from 3 on, or changes nothing and answers -ENOSPC |
| FileSystem.Disk.FreeBlk | fs5600.c:95-100 | The marked set loses exactly that block |
| FileSystem.Disk.BlockWrite | misc.c:45-61 | One block changes; a number that is not positive stops the process |
| FileSystem.Disk.Path2Inum | fs5600.c:155-241 | The loop answers the resolved inode or error of the string's components |
| FileSystem.Disk.FindPlace | fs5600.c:714-770 | The shared checks of create and mkdir, answers included |
| FileSystem.Disk.AddEntry | fs5600.c:791-817 | First free slot filled and written back, or -EINVAL without a write |
| FileSystem.Disk.FsCreate | fs5600.c:705-821 | In place: the new disk and answer are those of the image function, and the invariant holds |
| FileSystem.Disk.FsMkdir | fs5600.c:839-943 | Same, for mkdir with its two allocations |
| FileSystem.Disk.FreeExtents | fs5600.c:1004-1007 | The loop frees exactly the live pointers |
| FileSystem.Disk.RemoveEntry | fs5600.c:1011-1028 | The slot is cleared by inode number and the parent stamped |
| FileSystem.Disk.FsUnlink | fs5600.c:956-1033 | Same, for unlink |
| FileSystem.Disk.FsRmdir | fs5600.c:1043-1131 | Same, for rmdir; the invariant holds unless the root was removed |
| FileSystem.Disk.SameParent | fs5600.c:605-612 | The component loop says whether both paths have the same parent |
| FileSystem.Disk.RenameEntry | fs5600.c:635-647 | The slot found by name carries the new name afterwards |
| FileSystem.Disk.FsRename | fs5600.c:582-651 | The answer is that of the image function; so is the disk, and the invariant holds, unless a name that does not fit was stored |
| FileSystem.Disk.FsChmod | fs5600.c:666-682 | Same, for chmod |
| FileSystem.Disk.FsUtime | fs5600.c:1276-1302 | Same, for utime |
| FileSystem.Disk.FsTruncate | fs5600.c:1230-1262 | Same, for truncate |
| FileSystem.Disk.Clip | fs5600.c:531-538 | The clipping makes progress, stays inside block, request and file, and stops short of the block's end only at the last round |
| FileSystem.Disk.ReadBlocks | fs5600.c:524-552 | The loop fills the caller's buffer with exactly that stretch of the contents and leaves its rest alone |
| FileSystem.Disk.FsRead | fs5600.c:502-553 | Answer and buffer are those of the image function; the disk is unchanged |
| FileSystem.Disk.FsGetattr | fs5600.c:406-429 | Answer and attributes are those of the image function |
| FileSystem.Disk.FsReaddir | fs5600.c:451-491 | The entries emitted, in order, are those of the image function |
| FileSystem.Disk.FsStatfs | fs5600.c:346-385 | The counting loop computes the image function's counts |
| FileSystem.Disk.PutBlock | fs5600.c:1180-1199 | One round in place: allocate if needed, read, change, write back, or stop |
| FileSystem.Disk.WriteBlocks | fs5600.c:1172-1203 | The loop with the cached pointers ends in the state the recursive run describes |
| FileSystem.Disk.FsWrite | fs5600.c:1144-1220 | In place: the new disk and answer are those of the image function, and the invariant holds |
| ImageWalk.DirChildren | read-img.py:68-74 | The children collected from a directory block are exactly its children, each once |
| ImageWalk.ChildrenOrder | read-img.py:70-74 | A child collected earlier stands in an earlier slot |
| ImageWalk.UnderChildren | read-img.py:82-83 | What lies at or below a path is its inode and what lies at or below its children |
| ImageWalk.UnderApart | read-img.py:82-83 | Subtrees of different children share no inode, nor does a directory with its subtrees |
| ImageWalk.Walker.ReadBlock | read-img.py:68-74 | The slot loop collects the valid entries in order |
| ImageWalk.Walker.CheckFile | read-img.py:55-58 | The pointer loop reports exactly the unmarked live blocks |
| ImageWalk.Walker.ReadTable | read-img.py:61-74 | The loops over a directory's blocks report the unmarked ones and collect its children |
| ImageWalk.Walker.Iter | read-img.py:38-83 | The recursion terminates, visits each inode at or below its path exactly once under its own name, and reports exactly their unmarked blocks |
| ImageWalk.WalkImage | read-img.py:85 | On a well-formed disk the walk finds exactly the inodes and reports exactly the owned blocks a given bitmap fails to mark: none for the disk's own |
| ImageBuilder.Builder.constructor | gen-disk.py:108-112 | Superblock and bitmap are marked first |
| ImageBuilder.Builder.Mark | gen-disk.py:115-122 | A number is marked and recorded; a double count is printed for blocks, not for inode numbers |
| ImageBuilder.Builder.AddItem | gen-disk.py:115-123 | The inode number and the blocks of one item, in order; an error is printed exactly when a block of the item was marked before |
| ImageBuilder.Builder.Fill | gen-disk.py:114-123 | All items, in order; an error is printed exactly when some block occurs earlier in the order |
| ImageBuilder.Build | gen-disk.py:108-123 | Exactly {0, 1} and the listed numbers are marked; an error is printed exactly when some block occurs earlier in the order; when no number repeats, the record names the one item and index of each block |
| ImageBuilder.NoRepeatExact | gen-disk.py:114-123 | No number occurs twice exactly when no error is printed and every inode number was free when set |
| ImageBuilder.PrintEnoughIff | gen-disk.py:119-120 | Silence of the check implies that nothing was counted twice if and only if the check speaks or all inode numbers were free |
| ImageBuilder.PrintIsNotEnough | gen-disk.py:115-121 | A description on which nothing is printed although a number occurs twice |
| BuiltImage.RecordedExact | gen-disk.py:112-123 | When no number repeats, the record is exact: each block has the one tag of the line and index that list it |
| BuiltImage.BuiltGood | gen-disk.py:132-142 | The image written from such a record is well formed, each block owned once, when the lines describe a tree |
| BuiltImage.BuiltTree | gen-disk.py:21-86 | A path is in the tree of the written image exactly when the entry names along it lead to a line; it stands for that line's attributes, size and, byte by byte, the text of its blocks |
| BuiltImage.BuiltPath | gen-disk.py:52-86 | Every line is in the tree, under exactly one path |
| BuiltImage.BuiltBase | gen-disk.py:108-142 | The base case of every run: marked are exactly {0, 1} and the listed numbers, all of the latter are owned, and the tree is the described one |
| Numbers.AddNumbers | fs5600.c:705-943 | create and mkdir in plain numbers: -17 for an existing path, -22 for a name of 28 letters or more, -2, -20, abort, -22 for 128 names, else 0 |
| Numbers.PlaceNumbers | fs5600.c:74-87 | The root is inode 2, a new file gets the least unmarked block from 3 on |
| Numbers.RemoveNumbers | fs5600.c:956-1131 | unlink and rmdir in plain numbers, on every path |
| Numbers.LookupNumbers | fs5600.c:155-241 | The code of a failed lookup in plain numbers |
| Numbers.EditNumbers | fs5600.c:666-1302 | chmod, utime and truncate in plain numbers |
| Numbers.RenameNumbers | fs5600.c:582-651 | rename in plain numbers |
| Numbers.WriteNumbers | fs5600.c:1144-1220 | write in plain numbers: -28 beyond 4173824 bytes, abort when it needs more blocks of 4096 bytes than are unmarked, else the length |
| Numbers.ReadNumbers | fs5600.c:406-553 | read, getattr and readdir in plain numbers |
| Departures.FullDiskAdd | fs5600.c:775-786 | create and mkdir on a full disk stop the process |
| Departures.FullDiskWrite | fs5600.c:1181-1182 | So does a write that needs a block |
| Departures.FullDiskStatfs | fs5600.c:372-383 | statfs reports more free blocks than the disk has |
| Departures.WritePastEnd | fs5600.c:1162-1164 | A write past the end answers 0 |
| Departures.TightMkdir | fs5600.c:893-905 | mkdir with one free block stops the process and leaks it |
| Departures.TightWrite | fs5600.c:1178-1203 | A write that runs out of blocks half-way leaks one |
| Departures.CrowdedCreate | fs5600.c:775-811 | create in a directory of 128 files answers -EINVAL and leaks a block |
| Departures.EmptyRoot | fs5600.c:1105-1108 | rmdir of an empty root answers 0 and leaves no well-formed disk |
| Departures.LongRename | fs5600.c:635-643 | rename to a name of 28 characters answers 0 and leaves no well-formed disk |
| Departures.WideRmdir | fs5600.c:1105-1108 | rmdir of a directory of two blocks leaks the second |
| Departures.MissingBelow | fs5600.c:222 | A missing name in an existing directory below the root gives ENOTDIR, and EINVAL as source of a rename |
| Departures.LongOnTheWay | fs5600.c:186-189 | An over-long name on the way gives ENOTDIR |

## Left out

- FileSystem.Disk.FsRename: when a name longer than 27 characters is stored, only the answer is promised; the copy then runs past its field, which typed slots cannot show (`Renaming.RenameKeepsIff` and `Departures.LongRename` keep the whole name).
- FileSystem.Disk.Path2Inum: the branch for a directory of size 0 and the branches for failing block reads cannot be taken on a well-formed disk and are not written out.
- Undo.CreateUseUnlink: the run in between may fail in any way but not abort; an aborted write leaks (`Space.StepLeaks`).
- The disk has the 32768 blocks the bitmap can name. The size in the superblock matters to statfs only, as in the code; a block beyond the end of a smaller image file reads as stored contents here, where the C code would keep whatever its buffer held.
- Directories may have further blocks, as `/dir2` of disk1.in has, but without entries: the file system looks at the first block only, so entries in a later one would be invisible to it.
- Path strings start with a slash, have no double or trailing slash, fewer than 300 characters and at most 10 components, as the C buffers assume.
- Uninitialised pointers of a new inode are an arbitrary parameter (`junk`), and the bytes of a recycled inode or directory block an arbitrary function (`raw`); their byte layout is not modelled.
- Time, uid and gid are parameters; they are stored, no more is claimed of them.
- File descriptors, seeks and -EIO of misc.c; FUSE registration and argument parsing in lab4fuse.c; fs_init.
- The C strings behind strtok, buffer sizes, struct packing, and the width of sizes (a file never exceeds 4173824 bytes).
- The block size, name length and f_bavail fields statfs also sets: constants and a copy.
- gen-disk.py's text parsing and random contents, which are a parameter of the written image; its writing loop is the function `BuiltImage.ImageOf`, and blocks beyond its list of 400 are zero; the printing of read-img.py, whose second pass repeats the first.
- Crash consistency and concurrency: the code has no journal, write ordering or locks.
