# XENUS in Dafny

A model of the parts of XENUS where mistakes lose data, and proofs about them.

The main part is the storage stack of the kernel, in the layers of `kern/fs`. Each layer keeps the
kernel's own state and is proved to be something simpler.

| directory | modules | kernel source | what the layer is proved to be |
|---|---|---|---|
| `storage` | `Cache`, `Holders` | `blk.c` | a plain store from (device, block) to 512 bytes, whatever is cached, written back or evicted |
| `storage` | `Volume` | `alloc.c`, `mount.c` | a set of used blocks, kept on the disk group by group |
| `storage` | `FileTree`, `Bmap`, `InodeImage` | `bmap.c` | a partial map from file blocks to data blocks, no block used twice |
| `storage` | `Rw`, `Room` | `rw.c` | a byte sequence with holes; a write splices bytes into one file and leaves all others alone, and fails for want of blocks exactly if there are fewer than it needs |
| `storage` | `TruncTree`, `Trunc` | `bmap.c` | all blocks of one file given back, each once |
| `storage` | `Files` | `alloc.c`, `bmap.c`, `rw.c` | a map from inode numbers to byte strings, for all files of a volume |
| `names` | `Dir`, `DirFile` | `dir.c` | a finite map from names to inode numbers, over slots and over the blocks of a file |
| `names` | `InodeTable`, `InodeBlocks` | `inode.c`, `alloc.c` | inodes with reference counts, in the table or on the disk |
| `names` | `Links`, `Rename`, `Paths`, `Mknod`, `RenameCall`, `Calls`, `Runs`, `LostLink` | `mknod.c`, `open.c`, `dir.c` | a tree of directories in which every link count is the number of entries |
| `proc` | `Pipe`, `PipeRuns` | `pipe.c` | one stream of bytes, for any number of readers and writers |
| `proc` | `Sched` | `process.c` | a round robin that starves nobody |
| `proc` | `Pages`, `ProcTable` | `page.c`, `ualloc.c`, `fork.c`, `process.c` | a tree of processes, each page of memory held by one of them or free |
| `libc` | `Malloc` | `lib/malloc` | first fit over disjoint blocks; the heap grows only when there is no room |
| `tools` | `FsckImage`, `FsckNames`, `FsckLinks`, `Fsck`, `FsckAny` | `cmd/sbin/fsck.c` | the set of reachable blocks, and the number of links of each inode |
| `tools` | `Uu` | `cmd/bin/uuencode.c`, `uudecode.c` | an encoding and its inverse |

The kernel is not preempted in kernel mode, so a system call is a sequential method, and `idle()` is
the only point where another process gets in. Objects that the kernel changes in place are classes
with `modifies` clauses; their methods are proved against ghost fields or functions of the fields
(`view` of the cache, `used` of the volume, `Contents` of a file, `Graph` of the names), and the
properties are lemmas about those.

What the code gets from outside appears as a parameter: the address `sbrk` answers with, whether a
directory could get another block, the block that `alloc_blk` found for a new inode, who runs next.
In the layer of names the buffer cache is a list of numbers (`answers` of `InodeTable.Icore`): how many
buffers each scan, read or write to come can have before one cannot be had. `misses` counts the numbers
used up that were smaller than what the request can need, and `lost` is set when a changed inode could
not be written as its last reference went. What is said of errors and of the graph is said for every
such list, and every call says by `InodeTable.Follows` what it does to the three: with no numbers left
nothing is missed or lost, and with no 0 among them nothing is lost. `InodeBlocks` serves the numbers
from the cache itself: one is 0 exactly where a block is not in the cache and all four ways of its row are
held.

An error has one cause each, and the contracts say it: `Volume.Volume.Because` has those of the storage stack, a
read-only volume for EROFS, no free data block for ENOSPC, and a row of the cache with no way to spare for
ENOMEM. What a call leaves held in the cache is `Cache.Lent`, from which `Holders` and `Room` have when
there is a way to spare all through it.

The slots of `Dir` and the blocks of a directory meet in `DirFile`: `DirFile.Creat` works on the blocks
of the file through `bmap3` and the cache, and what it does to the entries stored there is the
function that `Dir.Dirs.Creat` applies to its slots, which `DirFile.CreatBoth` says in one place.

Several proofs start with a `hide` statement. It only leaves definitions out of the context of the
proof; it assumes nothing.

## Where the code does not do what one would expect

These are kept as they are in the code, with the condition under which it does what is expected.

- `bmap3` from file block 4160 on reads a map slot in place of a data slot: `Bmap.WalkRightIff` says
  exactly when it is right all the same, and `Bmap.WalkAliasesAtLow` gives two file blocks that are
  looked up to one map block. A write up there is a store into a map block, which leaves the map of the
  file as it was if and only if it stores what is there: `Bmap.StoreAboveKeepsMapIff`. A read up there
  returns what is where the lookup leads: `Rw.RegRead`, `Rw.SeenIsByte`.
- `bmindir` never gives its buffer back, so that a range of a file keeps the map blocks on its way held.
  `Rw.RegWrite` says that with one idle way more in each row than there are such map blocks, on a writable
  volume and within the limits, a write succeeds if and only if there are as many free blocks as the range
  has empty slots.
- `do_rename` clears the old name when the new one could not be made, and moves a directory without
  moving the link of its "..": `RenameCall.SysRename` has the call over table and directories, and says
  that the graph stays in order if and only if the new name is there at the end and a directory stays in
  the directory it is in, whether `dir_reparent` succeeds or not. `Rename.RenameSoundWhen` says the same in
  terms of the new name, what stands under it, and room; `Rename.RenameToSlashLoses` has "/a" renamed to
  "/" lose its only name.
- `do_rmdir` of ".." in directory d looks at what the walk finds, which is d itself at the root directory
  of the process, and then removes what the entry names. `Paths.RmdirUpSoundIff` says that the graph
  stays in order if and only if d is neither the root directory of the process nor that of the file
  system, or is not empty. `Paths.RmdirUpBreaks` has the two ways to fail: an empty root directory
  removes itself; and a process whose root directory is an empty directory below others, as `chroot`
  leaves it, makes the directory above a file, with all that is in it. `Mknod.Names.SysRmdir` has the
  call itself.
- `inode_put` drops a changed inode whose block cannot be had. `Mknod.Names.Put` says that the graph stays
  in order if and only if the reference is not the last one, or the inode has no links or is not flagged,
  or its block can be had, or the disk has the inode as it is; `LostLink.Loses` has the case that fails: a
  file gets a second name, its last reference goes while no buffer can be had, and two entries are left
  for a file with one link. `InodeBlocks.Put` says in terms of the cache when that happens, and
  `InodeBlocks.RunServed` that it does not happen in any run while every row of the cache has a way that
  nobody holds.
- `do_mknod` returns 0 also when it has made nothing: `Mknod.Names.SysMknod`.
- `dir_search` compares no more than 28 characters, so a longer last component finds the entry of its
  first 28: `Dir.Dirs.Search`.
- `dir_traverse` leaves a reference to the inode before a component that is too long:
  `Mknod.Names.Traverse`.
- `sys_waitpid` with pid 0 matches every child, because it compares the child's session with itself.
  `ProcTable.WaitedOwnIff` says that it matches the children of the caller's session and no others if and
  only if no child of another session has exited, and `ProcTable.ReportsOwnIff` that it reports the right
  child, or none, if and only if the last child in the list that has exited is of the caller's session;
  `ProcTable.ReportsOther` has a table where init is told of a child of another session.
- fsck reads the direct blocks of a directory and no others. `FsckNames.EdgesAreBindings` says that it goes
  from a directory of up to 64 blocks into exactly what the names other than the dots are bound to, and
  `FsckNames.FollowedIff` that it follows all names of a directory if and only if every inode that is named
  beyond the direct blocks is named in them too.
- A failed `reg_write` leaves the size raised; the bytes in between read as zero: `Rw.RegWrite`.
- A failed `dir_creat` can leave the size of the directory raised: `Dir.Dirs.Creat`.
- `fgets` answers NULL for a line of 255 bytes or more, which `uudecode` takes for the end of its input:
  `Uu.Fgets`, `Uu.Decode`.

## Model

| member | source | states |
|---|---|---|
| Cache.BlkCache.ValidIsCurrent | kern/fs/blk.c:129-158 | a valid slot has what the block was last given, so reading through the cache is reading the plain store |
| Cache.BlkCache.FindVictim | kern/fs/blk.c:84-119 | one scan for a free slot finds one exactly if a slot of the row has no reference and, in the first scan, is not dirty |
| Cache.BlkCache.Evict | kern/fs/blk.c:84-126 | it fails exactly if all four ways of the row are held; a held slot is never retagged; the disk changes only if no clean way is free |
| Cache.BlkCache.Get | kern/fs/blk.c:71-127 | a live block gets one more reference and keeps its slot; ENOMEM exactly if the block is absent and all four ways of its row are held, and then nothing changed; what the store has does not change |
| Cache.BlkCache.Write | kern/fs/blk.c:160-176 | writing a dirty slot brings the disk up to date for its block and changes nothing that can be seen |
| Cache.BlkCache.Read | kern/fs/blk.c:129-158 | the slot returned is valid and has the latest contents of the block; each error exactly in its case, without a trace |
| Cache.BlkCache.Put | kern/fs/blk.c:178-187 | one reference less, everything else as before |
| Cache.BlkCache.UpRead | kern/fs/blk.c:210-221 | the bytes copied out are those of the store; all references are as before |
| Cache.BlkCache.UpWrite | kern/fs/blk.c:223-239 | the store changes in the bytes written and nowhere else, also when the block is not read first because it is written whole; all references are as before |
| Cache.BlkCache.Sync | kern/fs/blk.c:189-208 | after a sync without a time limit the disk is the store, no slot is dirty, and with invl the unreferenced slots are invalid |
| Holders.RoomyIsSpare | kern/fs/blk.c:71-127 | a call that leaves at most n blocks held in ways that were idle finds an idle way in every row all along, if every row had more than n of them before it |
| Bytes.WordPutWord | kern/fs/bmap.c:125-136 | storing a word of a map block changes that word and no other |
| Bytes.BitAtPut | kern/fs/alloc.c:74-74 | setting or clearing one bit of a byte map changes that bit and no other |
| Bytes.BitIs | kern/fs/alloc.c:65-74 | bit k of a number is its binary digit k |
| Bytes.DigitsAre | kern/fs/bmap.c:125-136 | the four bytes of a word are its digits to the base 256, the lowest first |
| Volume.Volume.Erase | kern/fs/alloc.c:36-48 | the block reads as zeros, or the store is unchanged |
| Volume.Volume.Alloc | kern/fs/alloc.c:50-83 | the lowest free data block; ENOSPC exactly if there is none, EROFS exactly on a read-only volume, ENOMEM only if a row of the cache has no way to spare; only this block becomes used, it reads as zeros, and the hint is the block after it; the free count stays exact; on an error nothing is lost; all references are as before |
| Volume.Volume.Release | kern/fs/alloc.c:85-97 | exactly that block becomes free, the hint is the lower of it and what it was and so below every free block, and the count stays exact if the block was used |
| Volume.Volume.StaysSound | kern/fs/mount.c:140-174 | stores outside the bitmap blocks leave clean groups equal to their bitmap blocks |
| Volume.Volume.AllSaved | kern/fs/mount.c:94-174 | with no dirty group the disk has exactly the used set |
| Volume.Volume.LoadFreemap | kern/fs/mount.c:94-138 | the used set becomes exactly the bits on the disk, and no group is dirty; it fails only if a row of the cache has no way to spare |
| Volume.Volume.SaveFreemap | kern/fs/mount.c:140-174 | the bits on the disk become exactly the used set, no group is dirty, and no block but the bitmap changes; it fails only if a row of the cache has no way to spare; nothing happens on a read-only volume |
| Volume.Volume.CountFree | kern/fs/alloc.c:141-178 | the count is the number of clear bits on the disk; with no dirty group it is the number of free blocks; it fails only if a row of the cache has no way to spare |
| Volume.Volume.CountDisk | kern/fs/alloc.c:141-178 | the count of the loop over groups, bytes and bits is the number of clear bits of blocks below nblocks |
| Volume.Volume.CountOne | kern/fs/alloc.c:153-173 | one more bitmap block is counted; its buffer is given back, except that of the last block if that is only partly in use, which stays held once more |
| FileTree.BlockOfSlot | kern/fs/bmap.c:184-196 | the slots that name data and the file blocks below the limit of the map correspond one to one, in the order of the three arrays |
| FileTree.SlotOfIsData | kern/fs/bmap.c:184-196 | the slot of a file block is never that of a map block |
| FileTree.RootStep | kern/fs/bmap.c:151-182 | a new block in an empty slot of the inode leaves the file sound, changes no other slot and no byte, and adds one to the block count |
| FileTree.MidStep | kern/fs/bmap.c:112-149 | the same for a slot of a map block |
| FileTree.DataStep | kern/fs/rw.c:242-288 | a store into one data block changes exactly the bytes written |
| FileTree.SizeStep | kern/fs/rw.c:255-262 | raising the size adds zeros only: no old data becomes visible |
| FileTree.OtherFileKept | kern/fs/rw.c:242-288 | a file that shares no block with the one that grows keeps its map and all its bytes |
| FileTree.VolumeKept | kern/fs/rw.c:242-288 | growing one file keeps all files sound and pairwise disjoint; every other file reads as before |
| Bmap.WalkFindsData | kern/fs/bmap.c:184-196 | below file block 4160 the lookup finds the data block of the file block |
| Bmap.WalkRightIff | kern/fs/bmap.c:184-196 | the lookup is right if and only if the file block is below 4160, or is a hole where the map slot read in its place exists and is empty too |
| Bmap.WalkAliasesAtLow | kern/fs/bmap.c:144-147 | of every file with a map block in the slot read in their place, file blocks 4160 and 4161 are looked up to that map block, which is the block of neither |
| Bmap.StoreAboveKeepsMapIff | kern/fs/rw.c:264-285 | a store to where a file block from 4160 on is looked up leaves the map of the file as it was if and only if it stores what is there |
| Bmap.Inode.FillRoot | kern/fs/bmap.c:151-182 | the inode slot gets a fresh block, or nothing changes |
| Bmap.Inode.FillMid | kern/fs/bmap.c:112-149 | the map block slot gets a fresh block, in the held buffer too, or nothing changes |
| Bmap.Inode.Bmindir | kern/fs/bmap.c:112-149 | the word of the map block that the level selects, filled if asked for; the answer of the inner call is dropped |
| Bmap.Inode.Bmap6 | kern/fs/bmap.c:151-182 | the slot that the array and the level select; EFBIG exactly outside the array; growth fills that slot and at most its map block |
| Bmap.Inode.Bmap3 | kern/fs/bmap.c:184-206 | lookup is the walk and changes nothing; growth makes the block of this file block nonzero, keeps the block of every other file block also when it fails part way, keeps an existing block, and keeps the map free of sharing and the block count exact |
| Rw.ReadChunk | kern/fs/rw.c:208-236 | one turn of the loop yields the bytes that are where the lookup of the file block leads, zeros for a hole; EFBIG exactly if the lookup has no answer |
| Rw.SeenIsByte | kern/fs/bmap.c:184-196 | such a byte is the byte of the file wherever the lookup is right, and so everywhere below file block 4160 |
| Rw.SeenIsContents | kern/fs/rw.c:194-240 | a range of such bytes below file block 4160 is a slice of the contents, and none of it is beyond the map |
| Rw.RegRead | kern/fs/rw.c:194-240 | for every position and count: all bytes that can be seen from the position to the end of the range or of the file, which below file block 4160 are those of the contents; EFBIG only if a part of the range is beyond the map, ENOMEM only if a row of the cache has no way to spare; below file block 4160, with one idle way more in every row than map blocks on the way, it succeeds; the file is unchanged |
| Rw.WriteChunk | kern/fs/rw.c:264-285 | one turn of the loop stores its part of the range and nothing else, the volume grows by this file only, in the empty slots on the way to this file block, and each error has its cause |
| Rw.WroteIsSplice | kern/fs/rw.c:242-288 | bytes in place and a raised size are the splice of the bytes into the contents |
| Rw.RegWrite | kern/fs/rw.c:242-288 | the contents are the old contents with the bytes spliced in; after a failure with a front part of them and zeros to the raised size; EFBIG exactly over a limit and then nothing changed; EROFS, ENOSPC and ENOMEM only for their causes; success takes a free block for each empty slot of the range, ENOSPC comes only if there are fewer; with ways to spare, on a writable volume and within the limits, success if and only if there are as many; the file stays sound |
| Room.TakesMissing | kern/fs/rw.c:242-288 | the blocks that a write takes are as many as the empty slots on the way to its range that it fills |
| Room.WriteTakes | kern/fs/rw.c:242-288 | free blocks and empty slots of the range go down together; if nothing is taken and nothing is missing in the end, nothing was |
| Room.SpareLeft | kern/fs/bmap.c:112-149 | while a range is read or written the buffers that its map blocks keep held leave a way to spare in every row, if each had more idle ways than the range has map blocks |
| TruncTree.RootsAreOwned | kern/fs/bmap.c:276-321 | the trees below the root slots hold exactly the blocks of the file |
| TruncTree.SlotInRoot | kern/fs/bmap.c:237-321 | every slot in use lies in the tree below its root slot |
| TruncTree.TidyRoot | kern/fs/bmap.c:237-274 | the trees of a file without sharing overlap nowhere |
| Trunc.TruncI | kern/fs/bmap.c:237-274 | exactly the blocks below the map block are released, each once, and no buffer is held that was not before; nothing but released map blocks is stored to, and if asked for the map block is left empty; ENOMEM only if a row of the cache has no way to spare |
| Trunc.Trunc | kern/fs/bmap.c:276-321 | exactly the blocks of the file are released, each once, and no buffer is held that was not before; the file is empty, with no blocks, and sound; the free count stays exact; ENOMEM only if a row of the cache has no way to spare |
| Trunc.OtherKeptByTrunc | kern/fs/bmap.c:276-321 | a file that shares no block with the one truncated keeps its map and all its bytes |
| Trunc.VolumeKeptByTrunc | kern/fs/bmap.c:276-321 | truncating one file keeps all files sound and pairwise disjoint; every other file reads as before |
| Files.VolumeKeptByAlloc | kern/fs/alloc.c:99-129 | a free block that becomes an inode is the inode of an empty file; all files stay sound, disjoint and as they were |
| Files.VolumeKeptByFree | kern/fs/alloc.c:131-139 | giving up the block of an inode and the blocks of its file keeps all other files sound, disjoint and as they were |
| Files.Files.Alloc | kern/fs/alloc.c:99-129 | the volume as a map from inode numbers to byte strings gets a new number with no bytes, or is as it was and the block is free again |
| Files.Files.Free | kern/fs/alloc.c:131-139 | that map loses the number, also when blocks of the file could not be released |
| Files.Files.Write | kern/fs/rw.c:242-288 | that map changes at one number, to the splice, or after a failure to the splice of a front part and zeros; each error only for its cause, and with ways to spare and within the limits ENOSPC exactly if the range needs more blocks than are free; the invariant of all files stays |
| Files.Files.Read | kern/fs/rw.c:194-240 | the bytes of that map in the range, and nothing changes; with ways to spare it succeeds |
| Files.Files.Truncate | kern/fs/bmap.c:276-321 | that map changes at one number, to no bytes |
| Files.Files.WriteRead | kern/fs/rw.c:194-288 | a read after a write gives back the bytes written, and no other file has changed |
| Dir.StrncmpIff | kern/fs/dir.c:36-70 | comparing a slot with a name compares the stored name with the part of the name that fits |
| Dir.StrncpyStores | kern/fs/dir.c:105-174 | what is stored under a name is found under it |
| Dir.StandsSet | kern/fs/dir.c:160-171 | a free slot filled with a new name adds exactly that binding |
| Dir.StandsCleared | kern/fs/mknod.c:146-150 | a cleared slot removes exactly its binding |
| Dir.Dirs.Search | kern/fs/dir.c:36-70 | it finds the name, or its first 28 characters, only if that is bound, and in the slot that binds it; ENOENT only if it is not; ENOMEM only if a block could not be read and no block before it has the name |
| Dir.Dirs.Scan | kern/fs/dir.c:122-148 | EEXIST only if the name is bound; otherwise the first free slot of a directory in which it is not; ENOMEM only if a block could not be read and no block before it has the name |
| Dir.Dirs.Creat | kern/fs/dir.c:105-174 | exactly one binding is added, in the first free slot, or the map is as it was; each refusal in its case, in the order of the code; ENOSPC only if no slot is free and no block can be had, ENOMEM only if a buffer cannot be had, and success only if both can; it tells exactly whether size or blocks have changed; no entry in use lies beyond the size |
| Dir.Dirs.IsEmpty | kern/fs/dir.c:226-260 | it succeeds only if nothing but "." and ".." is bound; ENOTEMPTY only if something else is; ENOMEM only if a block could not be read and no block before it has such a name |
| Dir.Dirs.Clear | kern/fs/mknod.c:146-150 | the binding of the slot goes and no other |
| DirFile.PrefixGrown | kern/fs/dir.c:154-165 | growing by the first file block that has none keeps the blocks of a directory without a gap |
| DirFile.EntryStored | kern/fs/dir.c:165-171 | a store into one entry changes that slot and no other, and leaves the file sound |
| DirFile.EmptyDirFile | kern/fs/alloc.c:99-129 | a file without blocks is a directory without entries |
| DirFile.Search | kern/fs/dir.c:36-70 | on the blocks of the file: the entry found stands for the binding of the name; ENOENT only if there is none; ENOMEM only if a row of the cache has no way to spare |
| DirFile.Creat | kern/fs/dir.c:105-174 | on the blocks of the file: after it they stand for the bindings with the new one, or for the same; each error only for its cause, down to the free blocks and the ways of the cache; the blocks stay without a gap, no entry lies beyond the size, the file stays sound and takes free blocks only |
| DirFile.ClearedDirFile | kern/fs/mknod.c:146-150 | a cleared entry in the blocks of the file removes exactly its binding |
| DirFile.CreatBoth | kern/fs/dir.c:105-174 | an entry made in the blocks of the file and one made in the slots of Dir leave the two the same; after a failure they stand for the same bindings, and differ at most by a raised size and a blank block in the file |
| InodeTable.Icore.Get | kern/fs/inode.c:77-128 | one more reference to the inode, which is the one in the table or the one on the disk; ENOMEM exactly if it is not in the table and no entry is free or its block cannot be read; whoever held an entry still holds it |
| InodeTable.Icore.Put | kern/fs/inode.c:130-154 | one reference less; with the last one an inode without links goes, with its block and its contents, and any other is on the disk as it was, or, exactly if it has changed and the next number is 0, as the disk has it; ENOMEM exactly if a write is due and the next number is 0 |
| InodeTable.TakenIsCrowded | kern/fs/inode.c:98-102 | a table without a free entry holds as many different inodes as it has entries |
| InodeTable.CoherentPut | kern/fs/inode.c:130-154 | letting go keeps table and disk together the latest state of every inode |
| InodeTable.CoherentFree | kern/fs/inode.c:130-154 | so it does when the inode goes and is written to its freed block once more |
| InodeTable.CoherentFilled | kern/fs/inode.c:98-124 | so does reading an inode into a free entry |
| InodeTable.HeldStill | kern/fs/inode.c:77-154 | a change of one entry does not lose the entry of any other inode in use |
| InodeTable.CoherentLost | kern/fs/inode.c:145-151 | when a changed inode cannot be written, table and disk agree on the state that the disk has |
| InodeTable.Icore.Sync | kern/fs/inode.c:156-163 | with level 1, and no number missing a buffer, the disk has every inode as it is; what cannot be written stays flagged |
| InodeTable.Icore.SyncOne | kern/fs/inode.c:54-75 | an inode is written as it is and no longer flagged, or, if its block cannot be had, table and disk are as they were |
| InodeTable.Icore.Creat | kern/fs/dir.c:105-174 | the bindings of the directory in the entry change as dir_creat says, and its inode is flagged exactly if its size or blocks have changed |
| InodeTable.Icore.Alloc | kern/fs/alloc.c:99-129 | a new inode without links and with one reference; ENOMEM only if the table is full or a number missed a buffer; when it fails nothing is left of it |
| Links.ClimbsToRoot | kern/fs/mknod.c:160-204 | from every directory of a sound graph ".." leads to the root |
| Links.LinkSound | kern/fs/mknod.c:229-275 | one more entry and one more link keep the graph sound: counts exact, no entry for a missing inode, directories a tree |
| Links.FreshSound | kern/fs/alloc.c:99-129 | so does a new inode without links |
| Links.MkdirSound | kern/fs/mknod.c:160-204 | so do a new directory with its dots, two links for it and one for its parent |
| Links.UnlinkSound | kern/fs/mknod.c:90-158 | so does removing an entry of a file with one link of it |
| Links.EmptyNamed | kern/fs/mknod.c:206-227 | an empty directory is named by its own "." and one entry, which is in the directory of its ".."; no other directory is below it |
| Links.RmdirSound | kern/fs/mknod.c:90-158 | removing an empty directory takes two links of it and one of its parent, keeps the graph sound, and leaves it with none |
| Links.DropSound | kern/fs/inode.c:130-154 | an inode without links is no directory and named nowhere, so the graph stays sound without it |
| Links.UpGoneUnsound | kern/fs/mknod.c:90-158 | clearing the ".." of a directory and making what it named a file leaves no graph in order, whatever the two counts are |
| Links.OneOffUnsound | kern/fs/inode.c:145-151 | a graph in order with another link count or kind for one inode is not in order |
| Links.MoveFileSound | kern/fs/mknod.c:277-379 | a file that gets a second name and loses the first keeps the graph sound |
| Links.MoveDirSound | kern/fs/mknod.c:277-379 | so does a directory within one directory |
| Links.MoveAcrossUncounts | kern/fs/mknod.c:363-367 | a directory moved to another directory leaves its old parent with one link too many |
| Links.LoseUncounts | kern/fs/mknod.c:332-367 | clearing the old name when the new one was not made leaves an inode with one link too many |
| Links.RenameUpSoundIff | kern/fs/mknod.c:277-379 | rename keeps the graph sound if and only if it refuses, or has made the new name and, for a directory, in the same directory; whether dir_reparent succeeds makes no difference |
| Links.DropSoundIff | kern/fs/inode.c:130-154 | letting an empty file without links go neither puts a graph in order nor out of it |
| Rename.RenameSoundWhen | kern/fs/mknod.c:277-379 | rename keeps the graph sound if and only if the new name can be had, by its length, the kind of the directory, the buffers and room, and the inode is no directory, stays in its directory, or the new name stands for it or for a directory |
| Rename.RenameToSlashLoses | kern/fs/mknod.c:332-367 | "/a" renamed to "/" leaves a graph that is not sound |
| Paths.PutOrderly | kern/fs/inode.c:130-154 | giving up a reference keeps the graph sound and every inode without links referenced |
| Paths.StepLinked | kern/fs/dir.c:72-103 | a step along a path leads to where it started or to an inode with links |
| Paths.WalkLast | kern/fs/dir.c:176-224 | the walk over a path and one component more is a step from where the path leads |
| Paths.DotDotNotEmpty | kern/fs/mknod.c:206-227 | what ".." leads to, other than from the root of the process, is empty only from an empty root of the file system |
| Paths.RmdirUpSoundIff | kern/fs/mknod.c:206-227 | rmdir of ".." in a directory leaves the graph sound if and only if that is neither the root of the process nor of the file system, or is not empty |
| Paths.RmdirUpBreaks | kern/fs/mknod.c:206-227 | the two graphs and processes for which it does not: an empty root, and an empty root directory of a process below other directories |
| Links.UpLinks | kern/fs/mknod.c:132-147 | the counts that such an rmdir lowers: two links of a directory below the root, three of the one above it, two of an empty root |
| Paths.EmptyEntry | kern/fs/mknod.c:206-227 | the entry that the second half of rmdir removes names the directory that the first half found empty |
| Paths.WalkFails | kern/fs/dir.c:176-224 | a walk that stops at a component stops because the path leads nowhere and no component too long comes first, or because there is no room in the table or no buffer |
| Paths.WalkSticks | kern/fs/dir.c:207-208 | a component too long, after a front part that leads somewhere, ends the walk and leaves a reference to where it got |
| Paths.DeadOnce | kern/fs/dir.c:176-224 | a path that leads nowhere ends at one place, in a directory without the name or at what is no directory, so that ENOENT and ENOTDIR exclude each other |
| Paths.NothingInTheWay | kern/fs/open.c:41-140 | of a new name in a directory with room, a free block, room in the table and buffers, open with O_CREAT has no error to give but that of the descriptor |
| Paths.BackSoundIff | kern/fs/inode.c:145-151 | the graph with one inode as the disk has it is sound if and only if that is how the inode is |
| Paths.CoveredLess | kern/fs/file.c:58-70 | giving up one of the places that hold an inode leaves a reference for each of the others |
| Mknod.Names.SearchI | kern/fs/dir.c:72-103 | the inode one step further, with one more reference; ENOENT only if this is a directory without the name, ENOTDIR only if it is none; ENOMEM only if the table is full or a buffer cannot be had |
| Mknod.Names.Traverse | kern/fs/dir.c:176-224 | the inode the path leads to, with one more reference; ENOENT only if the walk ends in a directory without the next name, ENOTDIR only if it ends at what is no directory, ENOMEM only if the table is full or a buffer cannot be had, all with all references as before; ENAMETOOLONG only if a front part of the path leads to an inode and the next component is too long, and that inode has one reference more from then on; no inode goes on the way |
| Mknod.Names.Put | kern/fs/inode.c:130-154 | one reference less; an inode goes exactly if that was its last one and it has no links; the graph stays sound if and only if the reference was not the last one, or the inode has no links or is not flagged, or a buffer can be had, or the disk has it as it is; otherwise it has the inode as the disk does |
| LostLink.Loses | kern/fs/inode.c:145-151 | from a disk in order on, a link to a file that is lost: two entries name a file with one link |
| InodeBlocks.Get | kern/fs/inode.c:77-128 | over the blocks of the cache: ENOMEM exactly if the inode is not in the table, and no entry is free, or its block is not in the cache and all four ways of its row are held; what is read is what the cache has in the block |
| InodeBlocks.Put | kern/fs/inode.c:130-154 | over the blocks of the cache: a change is lost exactly if the last reference goes, the inode has links and is flagged, its block is not in the cache, and all four ways of its row are held; the blocks stay what the table takes the disk to be |
| InodeBlocks.Scan | kern/fs/blk.c:129-187 | a scan over blocks has all before the first that is not in the cache while all four ways of its row are held, as it was before the scan |
| InodeBlocks.ServedInFull | kern/fs/blk.c:71-127 | with a way to spare in every row each request gets all it needs |
| InodeBlocks.RunServed | kern/fs/mknod.c:58-379 | over every run of calls whose requests the cache serves, with a way to spare in every row at the start, no change is lost, and the invariant holds at the end unless an rmdir of ".." or a rename has left the graph out of order |
| Mknod.Names.SysUnlink | kern/fs/mknod.c:90-158 | the entry goes with one link, and the inode too if that was its last link and there are no references; a directory is refused; each error only in its case, and nothing changed, unless a changed inode could not be written |
| Mknod.Names.SysRmdir | kern/fs/mknod.c:206-227 | an empty directory goes with its entry and its dots; each error only in its case, and nothing changed, unless a changed inode could not be written; ".." goes through only from an empty root directory, of the process or the file system, and then the graph is not sound |
| Mknod.Names.SysLink | kern/fs/mknod.c:229-275 | one more entry and one more link for a file below the limit; each error only in its case, those of the second path only if the first leads to such a file, ENOSPC only if the directory has no free slot and no block can be had for it, and nothing changed, unless a changed inode could not be written |
| Mknod.Names.SysMknod | kern/fs/mknod.c:58-88 | a new plain file under a new name with one link, or, for a reason each in its case, nothing at all, ENOSPC only if there is no block for the inode, or no free slot in the directory and no block for it; the result is 0 in both cases |
| Mknod.Names.SysMkdir | kern/fs/mknod.c:160-204 | a new directory with its dots and exact counts, or nothing at all, wherever it fails; each error only in its case, ENOSPC only if there is no block for the inode or the dots, or no free slot in the directory and no block for it |
| Mknod.Names.SysOpen | kern/fs/open.c:41-140 | with O_CREAT a file that is not there is made with one link, and stays when no descriptor can be had: always, if the path leads to a directory, the name is new and fits, and block, room, table and buffers are there; ENOENT only without O_CREAT or if the walk to the directory ends in one too; otherwise the graph is as before; success keeps one reference to the inode; O_EXCL and writing to a directory are refused; each error only in its case |
| Runs.SysClose | kern/fs/file.c:58-70 | one reference less for the inode of the place closed, which goes if that was the last one and it has no links; every other place still holds its inode |
| Mknod.Names.constructor | kern/fs/mount.c:176-229 | on a file system in order the invariant holds once the root is mounted |
| Runs.Run | kern/fs/mknod.c:58-379 | over every run of open, close, mknod, mkdir, unlink, rmdir, link and rename, each starting at the root directory or at any inode open, until a change is lost, or an rmdir of ".." or a rename leaves the graph out of order, which the result tells: every call does to the graph and to what is open what its arguments ask for, or nothing for a reason; the counts are exact, no entry names a missing inode, the directories are a tree, an inode without links has references, and every inode open is there; no change is lost if no number is 0, and nothing is missed if there are none |
| Dir.StandsReplaced | kern/fs/mknod.c:339-352 | a slot in use that gets another inode binds its name to that and no other name |
| RenameCall.EnterNew | kern/fs/dir.c:105-174 | the graph gets one name more, or is as it was; each error only in its case, ENOSPC only if no slot is free |
| RenameCall.TakeOver | kern/fs/mknod.c:339-352 | the new name stands for the inode renamed, and what it stood for has one link less |
| RenameCall.PointUp | kern/fs/dir.c:262-297 | ".." of a directory names another inode, or the graph is as it was: EINVAL only if the first block of the directory has no entry "..", ENOMEM only if it cannot be had |
| RenameCall.PutAll | kern/fs/mknod.c:369-377 | letting go of the inodes held, in any number and with repetitions, leaves the references as they were, and of the inodes those with links or references |
| Paths.SettledAllSound | kern/fs/mknod.c:369-377 | whether the graph is in order does not change by that |
| RenameCall.SysRename | kern/fs/mknod.c:277-379 | the new name stands for the inode, the old one is gone, what had the new name has one link less, and ".." of a directory names its new parent if its first block has that entry and can be had, or, each for its reason, nothing changed; once the old name goes, the graph is in order at the end if and only if the new name was made and a directory stays in its directory, and then the invariant holds |
| Pipe.Ring.Getc | kern/fs/pipe.c:189-196 | the first byte of the ring; its panic is the precondition |
| Pipe.Ring.Putc | kern/fs/pipe.c:198-205 | one byte more at the end of the ring; its panic is the precondition |
| Pipe.Ring.Read | kern/fs/pipe.c:207-239 | one stretch between two yields is the step function on the contents, which PipeRuns.ReadAnswers says all of; the panic cannot happen |
| Pipe.Ring.Write | kern/fs/pipe.c:241-291 | the same for a writer, with PipeRuns.WriteAnswers |
| PipeRuns.NextKeepsInv | kern/fs/pipe.c:189-291 | the invariant of the protocol holds after every step of every reader and writer |
| PipeRuns.CallBegins | kern/fs/pipe.c:207-291 | a call under a new number waits for its first stretch, with nothing got or put, and nothing else changes |
| PipeRuns.StreamInOrder | kern/fs/pipe.c:189-291 | in every run the bytes delivered and then those in the pipe are the bytes accepted, and every writer's bytes are in order |
| PipeRuns.SmallWriteIsAtomic | kern/fs/pipe.c:241-291 | in every run a write of at most PIPE_BUF bytes is one contiguous piece of the stream if it returned its count, and absent otherwise |
| PipeRuns.ReadIsContiguous | kern/fs/pipe.c:207-239 | in every run what a reader got is one contiguous piece of the stream |
| PipeRuns.ReadAnswers | kern/fs/pipe.c:207-239 | a stretch of a read takes what there is up to the count; it waits, or is interrupted, exactly if bytes are wanted, none are there or taken, there is a writer and it may wait; it returns in all other cases |
| PipeRuns.WriteAnswers | kern/fs/pipe.c:241-291 | a stretch of a write puts all there is room for, or nothing if the write fits the empty pipe and not this one, or if there is no reader; Idle, EINTR and EPIPE exactly in their cases |
| PipeRuns.ReaderRuns | kern/fs/pipe.c:207-239 | in every run a reader that gets to run has the bytes accepted and not yet delivered, up to its count; 0 for a count above 0 exactly if there are none and there is no writer or it may not wait; it waits on, or is interrupted, exactly if there is a writer and it may |
| PipeRuns.WriterRuns | kern/fs/pipe.c:241-291 | in every run a writer that gets to run puts as many bytes as there is room for, of a small write all or none; it waits on, is interrupted or gets EPIPE exactly in its case |
| Sched.VisitNears | kern/process.c:277-292 | a turn of the loop that does not pick a runnable process brings it one turn nearer |
| Sched.Pick | kern/process.c:277-292 | the selection loop ends, with a runnable process, and changes nothing but slices |
| Sched.PickUnique | kern/process.c:277-292 | whom it picks does not depend on which runnable process the argument for its end uses |
| Sched.PickCredits | kern/process.c:277-292 | a selection raises every slice by the turns that came to its process, up to the limit |
| Sched.RoundsEven | kern/process.c:277-292 | no process has more than one turn more than another, and none that comes later has more |
| Sched.Scheduler.Select | kern/process.c:256-299 | the loop over pact computes the pick |
| Sched.NoStarvation | kern/process.c:256-299 | a runnable process with slice s is picked within npact * (-s / 10 + 1) calls, however the slices of the running processes are used up |
| Sched.PickedWithinWait | kern/process.c:256-299 | it is picked within the waiting time that its slice and its place give |
| Pages.Memory.Palloc | kern/page.c:44-51 | the top of the stack, or 0 if it is empty |
| Pages.Memory.Pfree | kern/page.c:53-65 | the page is on top of the stack; there is room for every page that is not free already, so the panic cannot happen |
| Pages.Memory.Rollback | kern/ualloc.c:112-121 | the failure path puts the pages back in reverse order: the stack is as before, order included |
| Pages.Memory.Pccopy | kern/ualloc.c:93-122 | it succeeds exactly if there are pages enough; then the copy maps the same indexes to the pages off the top of the stack, with the same contents; otherwise the stack is as before, order included, and the table empty |
| Pages.CopyMapsTop | kern/ualloc.c:93-122 | the pages of a copy are those taken off the stack, the last one first |
| Pages.Memory.Pcfree | kern/ualloc.c:81-91 | all pages of the table, and its own, are on the stack, each once |
| Pages.Memory.Clone | kern/fork.c:86-99 | all or nothing: a complete image from the top of the stack, or the stack as before, order included; all pages in use keep their contents |
| ProcTable.Kernel.ProcInit | kern/process.c:339-372 | the invariant holds once init is set up: init alone, with one page, all others free |
| ProcTable.Kernel.Allocpid | kern/fork.c:38-56 | the loop ends with the first number from where it left off that no active process has as pid or session, at most 9999 + 2 * npact |
| ProcTable.UsedBound | kern/fork.c:38-56 | the active processes use at most two numbers each |
| ProcTable.RunBound | kern/fork.c:38-56 | so no longer run of numbers is in use |
| ProcTable.ForkKeeps | kern/fork.c:58-125 | a child in a free slot with a fresh pid keeps the list exact, pids unique and the processes a tree |
| ProcTable.RunningIs | kern/fork.c:68-70 | the loop over the active processes counts the processes of the user |
| ProcTable.Kernel.Fork | kern/fork.c:58-125 | EAGAIN exactly if the table is full or a user other than root has MAXUPROC processes, ENOMEM exactly if there are too few pages besides, no other error, and then table, list and free pages are as before; otherwise one child with the first free number, a copy of the caller but for its pid, parent and pages, which hold what the caller's do |
| ProcTable.ExitKeeps | kern/process.c:205-254 | giving the children of a process to init keeps the list exact, pids unique and the processes a tree |
| ProcTable.Kernel.Exit | kern/process.c:205-254 | on the fields: the process has exited with the status given, and keeps pid, parent and its kernel stack only; of all others only those change that are its children, which are init's then, or of its session, which is dissolved; its other pages are free |
| ProcTable.ExitedLeft | kern/process.c:205-254 | what the loop over the children and the change of the process come to, field by field |
| ProcTable.ReapKeeps | kern/fork.c:186-194 | taking an exited process out of table and list keeps the list exact and every process with a live parent |
| ProcTable.Kernel.FindZombie | kern/fork.c:143-160 | the loop finds whether there is a child, whether one can be reported, and the last such in the list |
| ProcTable.WaitedOwnIff | kern/fork.c:143-160 | waiting for 0 matches the children of the caller's session and no others if and only if no child of another session has exited |
| ProcTable.ReportsOwnIff | kern/fork.c:143-196 | waiting for 0 reports the last child of the caller's session, or none, if and only if the last child that has exited is of that session |
| ProcTable.ReportsOther | kern/fork.c:143-160 | a table in order where waiting for 0 reports a child of another session |
| ProcTable.Kernel.Waitpid | kern/fork.c:132-196 | on the fields: no children exactly if no process has the caller as parent; a report exactly if a child has exited that is waited for, of the last such in the list, with its pid and its status, and it is gone, with its stack free; each other outcome exactly in its case, and nothing changed |
| ProcTable.PagesMove | kern/fork.c:58-196 | pages that move between the free stack and one process are still held once |
| ProcTable.RootedAtInit | kern/fork.c:58-196 | from every process parent links lead to init |
| ProcTable.Kernel.Run | kern/fork.c:58-196 | over every run of fork, exit and wait by any processes in any order each step does what it can do, the list is exact, pids are unique, the processes are a tree rooted at init, every page is free or held by one process, once; and whoever is told of a child is told the status with which it left, once |
| Malloc.MergeKeepsList | lib/malloc/malloc.c:46-58 | merging two free neighbours keeps the list ordered and its blocks disjoint |
| Malloc.SplitKeepsList | lib/malloc/malloc.c:63-78 | so does cutting a block |
| Malloc.AppendKeepsList | lib/malloc/malloc.c:81-90 | so does a block from sbrk at the end, and live blocks stay where they are |
| Malloc.FullScanMeansNoRoom | lib/malloc/malloc.c:45-61 | a scan to the end without a fit means that nowhere are that many addresses in a row free |
| Malloc.FirstFit | lib/malloc/malloc.c:45-61 | below where the scan has come to without a fit, nowhere are that many addresses in a row free |
| Malloc.LiveApart | lib/malloc/free.c:31-42 | no two live blocks overlap, and none overlaps free space |
| Malloc.Heap.Scan | lib/malloc/malloc.c:45-61 | the scan ends, with a free block that fits and with no room lower down, or there is no room |
| Malloc.Heap.Carve | lib/malloc/malloc.c:63-78 | the block handed out was free, fits, wastes less than a header, and all live blocks stay as they are |
| Malloc.Heap.Malloc | lib/malloc/malloc.c:37-91 | a block that was not live, with at least the payload asked for and less than a header more; space that was free is the lowest that fits; all live blocks stay where and what they are; sbrk only if there is no room; NULL exactly if sbrk fails |
| Malloc.Heap.Free | lib/malloc/free.c:31-42 | exactly the block is no longer live; a panic exactly for a pointer behind a header that is no longer in the list, or behind the first one |
| InodeImage.ImageReads | include/xenus/fs.h:72-87 | what is read of an inode in its block are the fields of struct disk_inode, laid out one after the other with the low byte first; it is a directory exactly if its mode has the file type 0040000 |
| FsckImage.ClosedHoldsReach | cmd/sbin/fsck.c:169-356 | a set with the root and all that its members name has everything that can be reached |
| FsckNames.IsDotsIff | cmd/sbin/fsck.c:140-142 | the entries left out are those whose name, as the kernel reads it, is "." or ".." |
| FsckNames.EdgeIff | cmd/sbin/fsck.c:110-157 | what is gone into from a directory is what the slots in use of its direct blocks are for, but for the dots |
| FsckNames.EdgesAreBindings | cmd/sbin/fsck.c:110-157 | from a directory of up to 64 blocks exactly what its names but for the dots are bound to |
| FsckNames.FollowedIff | cmd/sbin/fsck.c:153-155 | all names of a directory are followed if and only if every inode named beyond the direct blocks is named in them too |
| Fsck.Checker.MarkTree | cmd/sbin/fsck.c:194-330 | exactly the blocks of an inode with block numbers in range are marked, and their number is counted |
| Fsck.Checker.Cinode | cmd/sbin/fsck.c:169-356 | on images with numbers in range the walk ends, whatever the graph of directories, and enters the inode and all it leads to |
| Fsck.Checker.Cdirb | cmd/sbin/fsck.c:110-145 | every entry of a block with inode numbers in range is followed and counted once |
| FsckLinks.ReasonsMore | cmd/sbin/fsck.c:100-103 | a counter is raised by one for each link counted |
| FsckLinks.EnterLinks | cmd/sbin/fsck.c:169-356 | the links counted when an inode is entered are new and there |
| FsckLinks.AllLinks | cmd/sbin/fsck.c:408-472 | when the walk is done, the links counted are all links of reachable directories and no others |
| FsckAny.AnyChecker.MarkTree | cmd/sbin/fsck.c:194-330 | on any image: the blocks that the loops get to, past pointers out of range and map blocks that cannot be read, are marked, and no others |
| FsckAny.AnyChecker.Cinode | cmd/sbin/fsck.c:169-356 | on any image, and whatever failed reads leave in the buffer, the walk ends; counters and marks only grow, every inode entered on the way has its blocks marked, its link count noted and what it leads to entered, and nothing else is marked; if all blocks can be read none is entered that entries do not lead to |
| FsckAny.AnyChecker.TrailEntered | cmd/sbin/fsck.c:110-145 | what entries lead to, as far as fsck follows them, has been entered |
| FsckAny.AnyChecker.Walk | cmd/sbin/fsck.c:446-451 | on any image whose root is in range the walk ends, all inodes it can follow entries to have been entered, and, if all blocks can be read, no others; exactly the reserved blocks, the inodes entered and the blocks found for one of them are marked |
| Fsck.Checker.Walk | cmd/sbin/fsck.c:446-451 | on images with numbers in range the bitmap marks exactly the reserved blocks and those in use; the block count is complained about exactly if wrong, and the link count exactly if it is not the number of links; FsckNames has what the entries are that it follows |
| Uu.Uuencode1 | cmd/bin/uuencode.c:31-51 | the line of the bytes |
| Uu.Encode | cmd/bin/uuencode.c:86-103 | the text of the input |
| Uu.Fgets | lib/stdio/fgets.c:29-52 | the next line in the buffer, or the unfinished one at the end; NULL for a line of 255 bytes or more and at the end |
| Uu.Chomp | cmd/bin/uudecode.c:121-123 | the string in the buffer loses its first newline and what follows that; every byte but its end is as it was |
| Uu.ChompedIs | cmd/bin/uudecode.c:121-123 | that leaves exactly one buffer: a zero in place of the first newline, if that comes before the first zero |
| Uu.Uudecode1 | cmd/bin/uudecode.c:52-78 | the answer for the line in the buffer |
| Uu.Decode | cmd/bin/uudecode.c:116-134 | what the line loop writes, and where it stops: at "end", at a bad line, or when no line can be had |
| Uu.TripleOfQuad | cmd/bin/uudecode.c:52-78 | four characters decode to the three bytes they were made of |
| Uu.LineRoundTrip | cmd/bin/uudecode.c:52-78 | an encoded line of 0 to 45 bytes decodes to its bytes, whatever follows it in the buffer |
| Uu.AnyLineDecodes | cmd/bin/uudecode.c:52-78 | a line of 0 to 63 bytes, spelled with blanks or backquotes, decodes to its bytes; it is bad exactly if its first character is out of range |
| Uu.CatLine | cmd/bin/uuencode.c:31-51 | the line of the bytes of "Cat" is "#0V%T" |
| Uu.LineTaken | cmd/bin/uudecode.c:116-134 | an encoded line is read whole and is never taken for "end" |
| Uu.StreamRoundTrip | cmd/bin/uudecode.c:116-134 | the text of any input decodes to that input and stops at its "end", whatever follows |

## Left out

- Bmap.Inode.Bmap3: growth is modelled below file block 4160 only, where the lookup is right.
- Bmap.Inode.Bmap6: growth through the double-indirect array is not modelled, because the code answers it with a map block.
- Bmap.Inode.Bmindir: growth is modelled for the last level only.
- Volume.Volume.CountFree: says nothing of the count after a failure, because the code leaves a wrong one; Volume.Volume.CountOne has the buffer that it leaves held.
- Trunc.Trunc: says nothing of references after an error, because `trunc_i` leaves the buffer of the map block held.
- Rw.RegWrite: does not cover ranges that reach file block 4160, where the lookup is wrong; the default limit of a process, 2048 blocks, is below.
- Rw.WriteChunk: does not cover file block 4160 and above, for the same reason.
- Files.Files.Write: does not cover ranges that reach file block 4160, for the same reason.
- Files.Files.WriteRead: does not cover them either.
- DirFile.Creat: a directory has fewer than 4160 blocks; the scans copy a block out where the code holds its buffer, and the characters of a name are bytes.
- Cache.BlkCache.UpWrite: expects a block device that is attached; the failure of a device driver is not modelled.
- Cache.BlkCache.Sync: is the call without a time limit.
- Cache.BlkCache.Get: the slots of a row are values in an array, so pointers into a buffer are the index of its slot.
- Dir.Dirs.Reparent: `dir_reparent` takes the first slot of the name "..", in use or not; that free slots have no name is part of the invariant.
- RenameCall.SysRename: permissions, sticky directories and the comparison of devices are taken as granted; that a block can be had for the new directory is a parameter.
- Rename.RenameSoundWhen: has the two searches and `dir_reparent` succeed; RenameCall.SysRename has the rest.
- Mknod.Names.SysLink: is the call with linkmode 0, as are unlink and the run.
- Mknod.Names.SysMknod: makes plain files only; the other modes of a node, which change neither entries nor counts, are not modelled.
- Mknod.Names.SysOpen: O_TRUNC, permissions and what special files and pipes do when opened are not modelled; file_get and fd_get are a parameter.
- Runs.Run: says nothing of the graph once a changed inode could not be written or a call has left it out of order, but that table, disk and directories still agree; the root directory of the process stays the same.
- Mknod.Names.Traverse: a path is the sequence of its components, within one file system; mount points are not part of this model.
- Dir.Dirs.Creat: the blocks of a directory are one sequence of slots; that a block or a buffer can be had is a parameter. DirFile.Creat has the layers below.
- InodeTable.Icore.Put: inodes here have a mode and a link count; the map, size, times and owner are in FileTree or not part of this model, so that what else is lost with an inode that cannot be written does not show.
- InodeTable.Icore.Get: that a buffer can be had is one number a call; InodeBlocks.Get has the cache below it.
- InodeBlocks.RunServed: the requests are any list of scans, each let go of before the next; that the calls make those requests, in that order, is not stated.
- InodeTable.Icore.Alloc: the block for the inode is a parameter; Volume.Volume.Alloc proves what it is.
- Pages.Memory.Clone: the copy of the registers to the new kernel stack is not modelled, nor the kernel heap.
- Mknod.Names.constructor: a root inode with mode 0, which `mountroot` makes a directory without entries, is not covered; inodes without links, which an image can have after a crash, are not among its inodes but blocks that stay used; the free slots of its directories have no name, as all code that frees one leaves them.
- ProcTable.Kernel.Fork: file, terminal and directory references, times and signals of the child are not modelled.
- ProcTable.Kernel.Exit: closing files, giving up directories and the signals are not modelled.
- ProcTable.Kernel.Waitpid: one pass of the loop; `idle` in between is a step of the run, and the status is returned, not copied out.
- Pipe.Ring.Write: that no page can be had for the ring is not modelled; the ring is there.
- PipeRuns.Next: the ends of the pipe are opened once; `pipe_open`, `pipe_close` and `sys_pipe` are not modelled.
- Sched.NoStarvation: the set of active processes is fixed while a process waits; halting when all are idle is not modelled.
- Malloc.Heap.Free: the remainder of a split counts as a block, so its pointer is accepted though malloc never returned it; pointers behind which there never was a header are not covered.
- Malloc.Heap.Malloc: sizes do not wrap; `realloc` is not modelled, its comparison mixes sizes with and without header.
- FsckAny.AnyChecker.Cinode: counters are unbounded, where fsck has 16 bits and enters an inode again once its counter has wrapped; marks beyond the bitmap, which fsck makes for the last level of a double-indirect tree, are members of a set here; repairs and complaints are left out.
- FsckAny.AnyChecker.Walk: the root of the superblock is in range, which fsck does not look at either; what the counters add up to is said for images in range, by Fsck.Checker.Walk.
- Fsck.Checker.MarkTree: block numbers are in range; out of it fsck skips the block, but for the last level of a double-indirect tree, where it marks beyond its bitmap.
- Fsck.Checker.Cinode: numbers are in range; FsckAny.AnyChecker.Cinode has the rest.
- Fsck.Checker.Cdirb: inode numbers are in range; out of it fsck leaves the rest of the block.
- Fsck.Checker.Walk: reads images whose block and inode numbers are in range; repairs, messages, the complaint about directory sizes and types, and the comparison of bitmap bytes are left out; counters are unbounded.
- Uu.StreamRoundTrip: the header line and errors of files are left out.
- Permissions, users, times and quotas: taken as granted.
- Device drivers, interrupts, context switch, signals, `exec`, mounting, the terminal and the programs in user space but for those above: input, output and plumbing.
- The older lookup functions `bmap_i` and `bmap_alloc_i`: not called.

Nothing in this project was executed, nor was any part of XENUS; all that is claimed is what the verifier proves.
