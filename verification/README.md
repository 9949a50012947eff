# A model of the kernel, mkfs and the shell

This project models the parts of an xv6-style kernel for ARMv8 that keep data and processes safe, and proves what each
part promises:

- **Redo log over the buffer cache.** `Redo` has the disk images that commit and recovery pass through and what any of
  them recovers to; `GroupCommit` is the machine of operations, commits, crashes and recoveries in every interleaving;
  `BufferCache` and `Log` are the code, whose writes are shown to be exactly those images. `Params` has the sizes, `Sets`
  a fact about counting.
- **File system.** `Bitmap` and `BlockMap` say which block belongs where and which bytes a file has, `DiskInodes` how
  inodes are stored; `FileSystem` is the code that allocates, maps, reads, writes, truncates and splits writes into
  transactions, `Holes` what reading leaves of blocks that were never allocated; `Mkfs` builds the image that satisfies
  the invariants at the start. `Durability` puts the file system on top of the redo log: whatever disk write a crash
  falls after, files are as before a transaction or as after it. `Dirents`, `Directory`, `Creation` and `Paths` are
  directories, new files and path names, `InodeCache`, `FileTable` and `References` who holds which inode and file;
  `Histories` is about runs of calls on a new image.
- **Page tables and the page allocator.** `Memory` and `PageTree` describe the free list and the disjoint radix trees in
  physical memory; `Vm` is the code. The layout of addresses and entries is that of the Arm Architecture Reference
  Manual for Armv8-A, sections D4.2 and D4.3.
- **Sleep locks and the process table.** `SleepLock` and `ProcTable` are step machines with a program counter for every
  process and every CPU, at the granularity of one shared access; `Cpus` is what they share.
- **Shell parser.** `ShellSyntax` has the grammar, the parser as a function on text, and the proof that the one accepts
  what the other describes and gives its meaning; `ShellParser` is the recursive descent over the input buffer and the
  pass that ends the words in place.
- **Console.** `Console` is the ring with three indices as a line editor and a queue.

Code that changes state is modelled as classes and loops, and each method is related to a specification function or
predicate whose properties are proved separately. A `false` result, `Panic` or `Halted` stands for a kernel panic or an
exit.

Where the code does something its documentation does not say, the model does what the code does:

- The log area that mkfs makes has room for 29 entries beside the header, not for the 30 that `LOGSIZE` says. It is
  enough: with 30 blocks logged all buffers are dirty, and `commit` panics for want of a buffer before it writes
  anything. Commits are shown to be atomic exactly when the area has a block for the header and one for each of
  min(LOGSIZE, NBUF - 1) entries.
- A full chunk of `filewrite` logs at least 13 blocks, although `begin_op` reserves 10. A chunk keeps to the reservation
  exactly if the blocks it touches, with one more for growing, one for missing blocks and one for a missing indirect
  entry, are at most 10; all writes of at most 3073 bytes do. `dirlink`, `create` and freeing a file keep to it as well,
  in directories with at most one hole. Atomicity does not depend on it.
- `allocuvm` ignores that `map_region` can fail: growing may succeed with the last page missing.
- `copyuvm`, when it runs out of memory, gives back only the new top-level table.
- `vm_free` as `wait` calls it gives back neither the user pages nor the tables two levels down.
- `proc_alloc` returns with `ptable.lock` held when it gets no kernel stack.
- `dirlink` stores an inode number in sixteen bits.
- Reading a hole, or writing to it without making the file larger, enters a block in the inode in memory and marks it in
  the bitmap without calling `iupdate`. A crash before the next `iupdate` of that inode leaves a marked block that no
  file has, and what was committed into that block is lost. `dirlink` and `create` read the whole directory before they
  write to it, so in a directory whose inode has a hole they are not atomic, and a name that goes to the hole is lost in
  a crash after its commit, although its inode stays in use; it is shown that they are atomic in all other directories,
  and `create` of a directory in those too. mkfs builds a root directory with a hole from 30 files, or 32 more, and so
  on, because it rounds the size up although the entries end on a block boundary. No call makes another hole.
- `create` passes the address of a `uint32_t` where `dirlookup` stores a `size_t` (kern/sysfile.c:200, 207). The model
  returns the offset as a value; what the store overwrites is not part of it.
- Erasing does not undo the character that fills the console buffer. A process killed while it waits for input loses what
  that read had already taken.

## Model

| member | source | states |
|---|---|---|
| `Redo.HeaderRoundTrip` | kern/log.c:107-143 | The block list that write_head stores in a header sector is the one that read_head gets out of it. |
| `Redo.HeaderLayout` | kern/log.c:33-44 | A header sector is struct logheader word for word: the count, then the entries; words past them keep what was there. |
| `Redo.InstallAt` | kern/log.c:86-104 | After installing the first t log slots every home block holds the slot of its entry if it has one, and is unchanged otherwise. |
| `Redo.InstallIdempotent` | kern/log.c:145-153 | Installing part of a committed log and then recovering from the start gives the same home blocks as recovering once. |
| `Redo.CommitPoint` | kern/log.c:126-143 | The single header write moves recovery from the old home blocks to the new ones. |
| `Redo.CommitBefore` | kern/log.c:217-232 | A crash anywhere before the header write recovers to the state before the group. |
| `Redo.CommitAfter` | kern/log.c:234-245 | A crash anywhere from the header write on, also between installs, recovers to the state after the whole group. |
| `Redo.CommitEnd` | kern/log.c:234-245 | A commit that runs to its end leaves the group installed and the log empty. |
| `Redo.CommitCrashAtomic` | kern/log.c:217-245 | Whichever of its disk writes a commit is cut off after, recovery gives all of the group or none of it. |
| `Redo.RecoveryCrashAtomic` | kern/log.c:145-153 | Cutting recovery itself off after any of its writes and starting over changes nothing about the outcome. |
| `Redo.ShortLogMixes` | kern/log.c:263-274 | With one slot too few there is a group and a crash point whose recovery mixes old and new blocks. |
| `Redo.LogAreaExact` | kern/log.c:263-274 | For a list of distinct home blocks, commits are atomic for all contents if and only if the header and all entries fit in the log area. |
| `Redo.LogAreaBound` | kern/log.c:217-245 | No commit that the code writes out can mix old and new blocks if and only if the log area has a block for the header and one for each of min(LOGSIZE, NBUF - 1) entries. |
| `Redo.MkfsLogFits` | user/src/mkfs/main.c:30 | The log area that mkfs makes is large enough for every commit that is written out, and one block less would not be. |
| `Redo.OnlyListed` | kern/log.c:217-232 | What a commit writes depends on the cache at the listed blocks only, so buffers changed without log_write do not show. |
| `GroupCommit.RecoversWholeOperations` | kern/log.c:156-245 | In every state of every interleaving of operations, commits, crashes and recoveries, the disk recovers to the effect of a history of whole operations. |
| `GroupCommit.CommitExcludesOperations` | kern/log.c:156-214 | A commit runs only with no operation outstanding, the panic in end_op is unreachable, and logged blocks are distinct and never more than the header holds. |
| `GroupCommit.ReservationsHold` | kern/log.c:161-172 | As long as operations keep to MAXOPBLOCKS new entries each, entries plus unused reservations stay within LOGSIZE, however operations interleave. |
| `GroupCommit.EntriesAreBlocks` | kern/log.c:247-279 | In every state of every run an operation has added no more entries than it has written different blocks, since a block that is listed is absorbed. |
| `GroupCommit.FewBlocksSuffice` | kern/log.c:161-172 | So operations that write at most MAXOPBLOCKS different blocks each keep entries plus unused reservations within LOGSIZE. |
| `GroupCommit.DurableGrows` | kern/log.c:181-245 | What recovery would once give back is never lost again, across any number of crashes. |
| `GroupCommit.StepDurable` | kern/log.c:181-245 | A group becomes durable as a unit and only a crash loses operations in progress. |
| `GroupCommit.EndedIsDurable` | kern/log.c:177-214 | Whenever the log is open and every operation has ended, everything done since any earlier point of the run, unless a crash came between, is durable, and the disk recovers to it. |
| `GroupCommit.CommitProceeds` | kern/log.c:191-232 | A commit that has begun can always go on to its end, unless it has NBUF blocks to write. |
| `GroupCommit.ViewIsEffect` | kern/log.c:247-279 | Between commits the running system reads the effect of everything done so far. |
| `GroupCommit.AppendGood` | kern/log.c:258-279 | Logging a block keeps the list of entries distinct and outside the log, also when the block is logged again. |
| `BufferCache.Cache.constructor` | kern/bio.c:38-60 | The initial list is a circular permutation of all buffers, none of which holds a block. |
| `BufferCache.RingRemove` | kern/bio.c:147-149 | Unlinking a buffer leaves a well-formed circular list of the others. |
| `BufferCache.RingInsert` | kern/bio.c:151-155 | Linking it in behind the head gives the list with that buffer first. |
| `BufferCache.AllBusy` | kern/bio.c:90-103 | All buffers are busy exactly if as many blocks as there are buffers are held or dirty. |
| `BufferCache.Cache.FindCached` | kern/bio.c:75-88 | The first search finds the one buffer that holds the block, if there is one. |
| `BufferCache.Cache.FindIdle` | kern/bio.c:90-101 | The second search finds the least recently released buffer that is neither held nor dirty, or none when all are. |
| `BufferCache.Cache.Bget` | kern/bio.c:67-104 | Of two buffers never both hold a block; recycling takes the least recently released idle buffer; it panics exactly if the block is not cached and every buffer is busy. |
| `BufferCache.Cache.Bread` | kern/bio.c:106-119 | The buffer has the latest logged contents of the block, or those on disk, or what was last put in it without logging. |
| `BufferCache.Cache.Bwrite` | kern/bio.c:121-131 | The disk gets the contents of the buffer, which is clean afterwards. |
| `BufferCache.Cache.Brelse` | kern/bio.c:133-159 | The buffer is no longer held, and is the most recently used one when its last user has left; if it was changed and not logged, its block reads as on disk again once the buffer is reused. |
| `BufferCache.Cache.Pin` | kern/log.c:276-277 | A dirty buffer keeps its block until it is written. |
| `Log.Log.WriteLog` | kern/log.c:216-232 | The loop writes exactly the slot images of the commit sequence, in order. |
| `Log.Log.WriteHead` | kern/log.c:131-143 | The header on disk becomes the encoding of the in-memory list. |
| `Log.Log.InstallTrans` | kern/log.c:85-104 | The loop writes exactly the install images, in order. |
| `Log.Log.Commit` | kern/log.c:234-245 | Either it panics with the disk untouched, exactly if as many blocks are logged as there are buffers, or the disk passes through exactly the commit images, each of which recovers to before or after the group. |
| `Log.Log.QuietIsReady` | kern/log.c:177-214 | Between operations disk, cache and list are what crash atomicity of a commit asks for. |
| `Log.Log.ReadHead` | kern/log.c:106-124 | The in-memory list becomes what the header on disk encodes. |
| `Log.Log.RecoverFromLog` | kern/log.c:145-153 | The disk passes through exactly the recovery images and ends recovered, with an empty log. |
| `Log.Log.LogWrite` | kern/log.c:247-279 | The block is in the list once, its buffer is dirty, and what is read from it from now on is its contents; the list never outgrows the header, because every block listed keeps a buffer dirty. |
| `Log.Log.BeginOp` | kern/log.c:155-175 | An operation is admitted exactly if no commit runs and its reservation fits. |
| `Log.Log.EndOp` | kern/log.c:177-214 | The last operation commits the group; the others only count down. |
| `Log.CommitImagesInstall` | kern/log.c:234-245 | The images written one after another by the install loop are those of the commit sequence. |
| `Log.RecoveryTrace` | kern/log.c:145-153 | The writes of a whole recovery are the recovery sequence, step by step. |
| `Log.GroupTrace` | kern/log.c:234-245 | The writes of a whole commit are the commit sequence, step by step. |
| `Log.Log.CommittedAtomically` | kern/log.c:234-245 | Cutting the writes of Commit off anywhere leaves a disk that recovers to before or after the group. |
| `Memory.ChainFrame` | kern/kalloc.c:61-85 | The free list does not depend on pages that are not free. |
| `Vm.Vm.constructor` | kern/kalloc.c:25-59 | At the start the free list holds every page of the managed range once. |
| `Vm.Vm.Kalloc` | kern/kalloc.c:61-85 | The page handed out was free, is zero, and is now in no other place; translations and pages in use are untouched. |
| `Vm.Vm.Kfree` | kern/kalloc.c:32-50 | The page is first on a well-formed free list. |
| `PageTree.OneOwner` | kern/vm.c:27-78 | No frame is in two places: two paths that lead to the same frame are the same path in the same tree. |
| `PageTree.AttachNode` | kern/vm.c:62-75 | Hanging a fresh page below an empty entry adds that node and changes no other, in any tree. |
| `PageTree.AttachEntry` | kern/vm.c:89-109 | It adds exactly the translation of the new path, or none if it is a table. |
| `PageTree.AttachForest` | kern/vm.c:27-109 | All trees stay disjoint and tidy. |
| `PageTree.DetachForest` | kern/vm.c:249-281 | Clearing a last-level entry takes one page out of the trees and keeps the rest disjoint. |
| `PageTree.NewRoot` | kern/vm.c:164-174 | A zeroed frame is an empty tree that shares nothing with the others. |
| `PageTree.PathRoundTrip` | inc/mmu.h:27-47 | The four indices of a 48-bit address, read in base 512, are its page number. |
| `PageTree.PathInjective` | inc/mmu.h:27-47 | Two page-aligned 48-bit addresses with the same indices are equal. |
| `PageTree.PathIgnoresHalf` | kern/vm.c:32-36 | An address in the upper half has the same indices as one in the lower half. |
| `Vm.Vm.PgdirWalk` | kern/vm.c:27-78 | The entry found is that of the address; no translation changes, also when allocation fails half way; with allocation it fails exactly on a bad address or with fewer free frames than tables missing on the path, and takes exactly those. |
| `Vm.Vm.MapPage` | kern/vm.c:80-109 | Success adds exactly one translation, failure none; an entry that is present is refused, and memory runs out exactly with fewer free frames than missing tables. |
| `Vm.Vm.AllocUvm` | kern/vm.c:217-246 | On success the process has gained exactly the new pages, zeroed, from frames in use nowhere; on failure every translation is as before. It fails if and only if the free frames do not outnumber what all pages but the last take, one each and one for every table that is missing; all pages are there if and only if they suffice for the last page as well; in between that page alone is silently missing. |
| `Vm.NeededBound` | kern/vm.c:27-78 | Growing by n pages takes at least n frames and at most four times as many. |
| `Vm.Vm.DeallocUvm` | kern/vm.c:248-281 | Exactly the translations between the sizes are removed, for user pages contiguous from 0. |
| `Vm.GrownThenCleared` | kern/vm.c:217-281 | Growing and then shrinking back restores every translation. |
| `Vm.ClearedContiguous` | kern/vm.c:248-281 | A contiguous address space stays contiguous when its top is removed. |
| `Vm.Vm.PgdirInit` | kern/vm.c:163-174 | A new table is empty and disjoint from all others. |
| `Vm.Vm.CopyUvm` | kern/vm.c:389-429 | When fork succeeds every page below the size translates in the child to a frame of its own with the same bytes and the same user and read-only bits; when it fails every process has the translations and the bytes in its pages that it had. It fails exactly if the free frames do not outnumber the pages and the tables for them. |
| `Vm.ForkDisjoint` | kern/vm.c:389-429 | Parent and child share no frame, neither page nor table. |
| `Vm.ForkIsolated` | kern/vm.c:389-429 | Whatever is stored in a page of the child, the parent keeps its translations and its bytes. |
| `Vm.Vm.VmFree` | kern/vm.c:112-141 | Each frame is freed at most once, nothing outside the tree is freed, and exactly the frames at the depths freed for this starting level are. |
| `Vm.Vm.FreeTree` | kern/proc.c:439-440 | wait leaves the other processes untouched and gives back exactly those frames of the dead one. |
| `Vm.LeakedFromLevelOne` | kern/vm.c:116-141 | Started at level 1, vm_free gives back everything but the tables two indices down and the user pages; started at level 0, everything but the last-level tables. |
| `Bitmap.SetBitOnly` | kern/fs.c:81-84 | Setting a bit of a byte sets that bit and no other. |
| `Bitmap.ClearBitOnly` | kern/fs.c:109-114 | Clearing a bit clears that bit and no other. |
| `Bitmap.SetInUse` | kern/fs.c:77-89 | Marking a block in the bitmap marks no other block. |
| `Bitmap.ClearInUse` | kern/fs.c:106-116 | Unmarking a block unmarks no other block. |
| `Bytes.GetPut` | kern/fs.c:455-460 | A word stored in a block reads back and moves no other word. |
| `BlockMap.OnePlace` | kern/fs.c:438-466 | No block address occurs twice, in one inode or in two, as direct address, indirect block or indirect entry. |
| `BlockMap.PutOnly` | kern/fs.c:445-460 | Storing one address changes that address only, also when it is an indirect block with all its entries. |
| `BlockMap.PutBytes` | kern/fs.c:445-460 | Entering a zeroed block changes no byte of any file. |
| `BlockMap.WriteBytes` | kern/fs.c:588-594 | Storing to a data block changes those bytes of that file and nothing else. |
| `BlockMap.FreeIrrelevant` | kern/fs.c:494-500 | Contents of blocks that belong to no file matter to no address and no byte, so unlogged changes to a block about to be freed do no harm. |
| `FileSystem.FileSystem.Balloc` | kern/fs.c:65-95 | The first block whose bit is clear is marked and zeroed, and nothing else changes; failure means that every bit is set. |
| `FileSystem.FileSystem.Bfree` | kern/fs.c:97-117 | It panics exactly if the bit is clear already. |
| `FileSystem.FileSystem.Bmap` | kern/fs.c:428-466 | The block found or allocated is that of the file block; every other address and every byte of every file is kept, and every used block stays in one place with its bit set. Exactly the bitmap, the new block and the indirect block with the new entry are logged, and nothing if the block was there. |
| `DiskInodes.InodeLayout` | kern/fs.c:251-273 | The sixteen words of a stored inode are those of struct dinode: type and major, minor and link count, size, thirteen addresses. |
| `DiskInodes.InodeRoundTrip` | kern/fs.c:251-273 | An inode stored in its place in a block reads back field by field, and the other seven inodes of the block are as they were. |
| `FileSystem.FileSystem.Iupdate` | kern/fs.c:245-273 | The stored inode becomes the one in memory; every other stored inode, every address and every byte of every file stays, and only its block is logged. |
| `FileSystem.FileSystem.Ialloc` | kern/fs.c:216-242 | The first free inode from 1 on is marked and emptied on the disk, and nothing else changes; it panics exactly if none is free. |
| `FileSystem.FileSystem.Itrunc` | kern/fs.c:468-507 | The inode is empty, no other file changes, the freeing panic is unreachable, and exactly the blocks of that inode leave their places. |
| `FileSystem.FileSystem.ItruncFrees` | kern/fs.c:468-507 | The bits cleared are exactly those of the blocks that belonged to the inode. |
| `FileSystem.FileSystem.ReadI` | kern/fs.c:537-565 | The result is exactly the slice of the file clipped at its size; the blocks it covers are there afterwards, with no block missing below the size nothing is allocated; and the inode is still written through exactly if no address in it was missing. |
| `Holes.FilledKeeps` | kern/fs.c:557-562 | Reading the whole of a file leaves it without holes and makes none elsewhere; everything in use that changes is logged, and no stored inode changes, also not that of the file. |
| `Holes.FilledLogs` | kern/fs.c:557-562 | What that logs is the bitmap, the blocks that filled holes and the indirect block. |
| `FileSystem.FileSystem.WriteI` | kern/fs.c:567-601 | The file becomes the old bytes with the range replaced and grows to cover it; no other file changes; refused exactly past the end, past the largest size or on overflow; a file without holes stays so; and the inode is still written through afterwards exactly if the file grew or no address in it was missing. |
| `FileSystem.SpliceTwice` | kern/file.c:147-168 | Writing in pieces, one after another, comes to the same file as writing all at once. |
| `FileSystem.WriteSizeExact` | kern/file.c:147-168 | With one bitmap block, a write logs exactly the blocks it touches, one more if the file grows, one if any of those blocks was missing, and one if an entry of the indirect block was. |
| `FileSystem.WriteSizeBounds` | kern/file.c:142-168 | That is at most MAXOPBLOCKS for every write that touches seven blocks, and so for all of at most 3073 bytes, and more than that for every write that touches eleven; for a chunk of filewrite it is at most seventeen, for a full one at least thirteen. |
| `FileSystem.AtLeastThirteen` | kern/file.c:142-168 | A full chunk logs at least thirteen different blocks, more than an operation may. |
| `FileSystem.FileSystem.WriteChunk` | kern/file.c:147-168 | One transaction of filewrite stores its piece; with one bitmap block the number of blocks it logs is exactly that sum, so it keeps to what begin_op reserved if and only if the sum is at most MAXOPBLOCKS. |
| `FileSystem.FileSystem.FileWrite` | kern/file.c:130-175 | Chunk by chunk the whole buffer is stored at the offset, which moves along, and the number of bytes returned is all of them; a range that starts past the end or does not fit ends in a panic, and nothing else does but a full disk. |
| `Mkfs.Mkfs.Ialloc` | user/src/mkfs/main.c:237-249 | The next inode is empty, on the image too, and no other changes. |
| `Mkfs.Mkfs.Winode` | user/src/mkfs/main.c:197-209 | Every inode is as its block on the image says, and no file changes. |
| `Mkfs.Mkfs.Iappend` | user/src/mkfs/main.c:269-311 | The file grows by the bytes at its end and no other file changes; failure means a full image or a file past the largest size. |
| `Mkfs.Mkfs.Balloc` | user/src/mkfs/main.c:251-265 | Exactly the bits of the first used blocks are set. |
| `Mkfs.Mkfs.AddFile` | user/src/mkfs/main.c:135-170 | One more file is in place, named in the root directory, with its data. |
| `Mkfs.Mkfs.Build` | user/src/mkfs/main.c:98-182 | Of every image that fits, the kernel invariants hold: each used block in one place with its bit set, every inode stored in its block, the log empty; each input file holds its data and has no hole, and the root directory has none exactly if its entries do not fill whole blocks. |
| `Mkfs.Mkfs.RootResolves` | user/src/mkfs/main.c:121-159 | In the root directory of the image the file given k-th is found under its name, cut to DIRSIZ, as inode k + 2, and the root itself under its two dots; no other name is found. |
| `Mkfs.Mkfs.RootHole` | user/src/mkfs/main.c:172-175 | The root directory is built with a hole if and only if there are 30 files, or 32 more, and so on; the hole is the block where the next name goes. With 30 files the size is 1024 and the second address is missing. |
| `Dirents.DirentRoundTrip` | kern/fs.c:662-664 | An entry reads back with its name cut to DIRSIZ and its inode number cut to sixteen bits. |
| `Dirents.CutExact` | kern/fs.c:605-609 | A name is what comes before its first NUL, and of that fourteen bytes at the most. |
| `Dirents.Namecmp` | kern/fs.c:605-609 | Names compare equal exactly if their first DIRSIZ bytes up to a NUL agree. |
| `Dirents.LookupIsMap` | kern/fs.c:615-638 | Looking up a name in the entries is lookup in the finite map they stand for. |
| `Dirents.InsertIsUpdate` | kern/fs.c:640-668 | Adding an entry is adding a binding; names stay distinct. |
| `Dirents.LinkResolves` | kern/fs.c:640-668 | After linking, the name resolves to the inode if and only if the number is below 65536. |
| `Dirents.LinkKeeps` | kern/fs.c:640-668 | Every other name resolves as before. |
| `Directory.Dirlookup` | kern/fs.c:611-638 | It finds the first entry in use with the name, or says there is none; no byte of any file changes, and the holes among the bytes it has read are filled. |
| `Directory.Dirlink` | kern/fs.c:640-668 | An existing name is refused; otherwise the entries become those with the new one in the first free place, no other file changes and everything in use that changes is logged. If the directory grew its inode is stored; if not, the stored one stays, and the one in memory stays exactly if it had no hole itself. It panics only on what is no proper directory or where no entry is free and the file is as long as it can be. |
| `Directory.HoleIsFree` | kern/fs.c:650-657 | The entries in a hole are free, so a directory with a hole in its inode does not grow. |
| `Directory.LinkSynced` | kern/fs.c:640-668 | After dirlink all inodes are written through if and only if no address was missing in the inode of the directory. |
| `Directory.LinkLost` | kern/fs.c:640-668 | If the new entry went to a block that the old inode has no address for, then the directory read through the old inode has exactly the old entries. |
| `Creation.MakeDots` | kern/sysfile.c:228-231 | A new directory ends up with exactly its two entries, and the panic is unreachable. |
| `Creation.Create` | kern/sysfile.c:194-240 | In any directory: a free inode becomes the new file and the name is bound to it, a new directory has its two entries and its parent a link more, and nothing else changes; all inodes, if they were before, are still written through exactly if the new file is a directory or no address was missing in the inode of the parent; an existing name is opened exactly if both are plain files; it can panic only where there is no proper directory, the name is that of a free inode, or inodes or entries run out. |
| `Creation.CreateStored` | kern/sysfile.c:207-235 | The inode of the parent is stored after the lookup has filled its holes exactly if the new file is a directory or the parent grows, and a parent with a hole in its inode does not grow. |
| `Creation.CreateCounts` | kern/sysfile.c:194-240 | With one bitmap block create logs at most six blocks and what fills the holes of the parent. |
| `Paths.Skipelem` | kern/fs.c:698-734 | Each call takes the next non-empty piece between slashes, cut to DIRSIZ, until there is none. |
| `Paths.NameFirst` | kern/fs.c:717-733 | A maximal run without slashes is the first of the names of a path. |
| `InodeCache.InodeCache.Iget` | kern/fs.c:275-314 | One reference more to that inode and none to others; no two live entries for one inode; it panics exactly if the inode is not cached and no entry is free. |
| `InodeCache.InodeCache.Idup` | kern/fs.c:316-328 | One reference more to that inode and none to others. |
| `InodeCache.InodeCache.Iput` | kern/fs.c:382-417 | One reference less; with the last one to an inode without links its blocks, and no others, are freed. |
| `InodeCache.WalkOne` | kern/fs.c:750-768 | A single name leads where the finite map of the directory binds it, and nowhere from what is no directory or under a name that is not bound. |
| `InodeCache.WalkOn` | kern/fs.c:736-775 | Names one after the other: from where the first of them lead, the others go on. |
| `InodeCache.WalkParent` | kern/fs.c:755-788 | nameiparent leads to the directory in which namei finds the last name. |
| `InodeCache.InodeCache.Namex` | kern/fs.c:736-775 | The inode found is that of the fold of directory lookup over the names, from the root exactly if the path begins with a slash and else from the current directory; success adds exactly one reference, a path that leads nowhere none. |
| `FileTable.FileTable.Filealloc` | kern/file.c:25-41 | The first file without references is handed out with one. |
| `FileTable.FileTable.Fileclose` | kern/file.c:60-89 | One reference less, and with the last one the reference to the inode is given back; a file that others still refer to keeps its inode, offset and kind; its own panics are reached exactly without a reference or with a last one to no inode. |
| `FileTable.FileTable.Fdalloc` | kern/sysfile.c:47-64 | The first empty descriptor takes the file. |
| `FileTable.FileTable.Dup` | kern/sysfile.c:66-79 | For every file, references not accounted for by these descriptors stay the same. |
| `FileTable.FileTable.Close` | kern/sysfile.c:129-144 | For every file, references not accounted for by these descriptors stay the same, and no panic of fileclose is reached. |
| `References.CountsAreHolders` | kern/sysfile.c:51-144 | Over any run of open, dup, close, chdir, fork and exit, file counts are the descriptors and calls naming the file, inode counts the open files, current directories and calls naming the inode, and live cache entries are for different inodes. |
| `References.NamedFileKept` | kern/file.c:43-89 | A file that a descriptor names has references, so filedup and fileclose do not panic on it and filealloc does not hand it out. |
| `References.EntryNotRecycled` | kern/fs.c:302-310 | While anything holds a cache entry, it goes on caching the same inode. |
| `InodeCache.InodeCache.FreeInode` | kern/fs.c:403-405 | The inode is free in memory and on the disk, its blocks are free, and all other files and stored inodes are as they were. |
| `Durability.CoherentShows` | kern/fs.c:494-500 | A disk that has what the buffers show, except in free blocks, holds the same inodes, the same bytes in every file, and a bitmap of exactly the blocks in use. |
| `Durability.GroupIsTransaction` | kern/log.c:177-214 | Operations that commit together are crash atomic together. |
| `Durability.TransactionCrashAtomic` | kern/log.c:217-245 | Cut a transaction of the file system off after any write of its commit: recovery brings back all files as before it, or all as after it, with every invariant; a complete commit leaves the disk ready for the next. |
| `Durability.RecoveryLeaves` | kern/log.c:145-153 | Cutting recovery off anywhere and starting over brings back the same files. |
| `Durability.RunCrashAtomic` | kern/log.c:181-245 | After any number of committed transactions, a crash anywhere in the next commit and then anywhere in recovery leaves all files as before that transaction or as after it. |
| `Durability.WriteTransaction` | kern/file.c:152-161 | Whenever the machine stops, the file has its old bytes or the spliced ones, all others the bytes they had; this holds if and only if all inodes were written through before, and the write makes the file larger or finds no address missing in the inode; with one bitmap block the number of blocks logged is exact, and every list of them that leaves room for the header fits the log. |
| `Durability.LinkTransaction` | kern/fs.c:640-668 | Whenever the machine stops, the directory is without the new name or with it, and nothing else differs. This holds if and only if all inodes were written through before and no address is missing in the inode of the directory below its size; if not, and the name goes to such a block, a reboot after the commit finds the directory as it was. With one bitmap block it logs at most four blocks and one for each hole. |
| `Durability.NameLost` | kern/fs.c:640-668 | From every disk that has what the buffers show after a commit that put the name into a hole of the stored inode, a reboot reads exactly the entries that were there before. |
| `Durability.CommittedCoherent` | kern/log.c:234-245 | The disk that a complete commit leaves is one of those, whether or not the inodes are written through. |
| `Durability.CreateTransaction` | kern/sysfile.c:194-240 | Whenever the machine stops, there is neither the file nor its name, or there are both. This holds if and only if all inodes were written through before, and the new file is a directory or no address is missing in the inode of the parent below its size; if not, and the name goes to such a block, a reboot after the commit finds the inode in use and the parent without the name. With one bitmap block it logs at most six blocks and one for each hole. |
| `Durability.RemoveTransaction` | kern/fs.c:397-407 | Whenever the machine stops, the file is whole or it is gone with all its blocks free, although the cleared indirect block is not logged; it logs at most two blocks where there is one bitmap block, and every list of them is a log header. |
| `Durability.CommitLeaves` | kern/log.c:234-245 | Every image that the code of commit leaves on the disk recovers to all files as before the transaction or all as after it. |
| `Durability.InterleavedRecovers` | kern/log.c:156-245 | However log_writes of any number of operations interleave with commits, crashes and recoveries, recovery brings back the files that the durable operations last wrote. |
| `Durability.MkfsStarts` | user/src/mkfs/main.c:98-182 | The image that mkfs builds is one that all this starts from, and its log has room for every commit. |
| `Durability.MkfsFirstName` | user/src/mkfs/main.c:172-175 | On a new image the first name linked in the root directory goes to a hole, and is lost in a crash after its commit, if and only if there are 30 files, or 32 more, and so on; in all other images links in the root are atomic. |
| `Histories.Read` | kern/fs.c:537-565 | readi makes no hole and changes no kind and no link count, and leaves what the next call asks for. |
| `Histories.Write` | kern/fs.c:567-601 | Nor does writei. |
| `Histories.Link` | kern/fs.c:640-668 | Nor does dirlink. |
| `Histories.Create` | kern/sysfile.c:194-240 | create makes no hole, and changes kinds and link counts only as a new file asks for. |
| `Histories.Put` | kern/fs.c:382-417 | iput makes no hole, and frees an inode only if it is in use and has no link. |
| `Histories.AlwaysLinked` | kern/fs.c:397-407 | In every state of every run of these calls on the image that mkfs builds, each inode in use has a link and no link count has wrapped around, so iput never frees an inode; and no inode has a hole, other than a root directory that was built with one. |
| `SleepLock.RunInv` | kern/sleeplock.c:11-31 | The invariant behind the lock holds in every state of every interleaving. |
| `SleepLock.MutualExclusion` | kern/sleeplock.c:11-31 | At most one process holds the lock. |
| `SleepLock.HoldingSleepExact` | kern/sleeplock.c:33-42 | holdingsleep is true for exactly the process that holds the lock. |
| `SleepLock.NoProcessLeftAsleep` | kern/proc.c:300-347 | A process asleep on a free lock, or committed to sleep on it, is ahead of a wakeup by a process that still holds the inner spinlock. |
| `SleepLock.NobodyAsleepOnFreeLock` | kern/proc.c:300-347 | With the lock and its inner spinlock free, no process sleeps on it. |
| `SleepLock.NeverPanics` | kern/spinlock.c:25-44 | No acquire finds its own CPU holding the lock, no release finds it not holding, and sched is entered with ptable.lock held by a process that is not RUNNING. |
| `ProcTable.RunInv` | kern/proc.c:57-106 | The invariants of the table hold in every state of every interleaving. |
| `ProcTable.RunningMeansOnCpu` | kern/proc.c:185-230 | Whenever ptable.lock is free, RUNNING processes and the processes of CPUs are in bijection. |
| `ProcTable.DistinctPids` | kern/proc.c:30-38 | Live processes have different pids. |
| `ProcTable.ParentsAlive` | kern/proc.c:266-298 | No parent pointer names an unused slot, a slot being built or a zombie; so a zombie has no children. |
| `ProcTable.StackFreedOffCpu` | kern/proc.c:434-447 | A kernel stack is freed only when no CPU executes on it, and its process is nobody's parent. |
| `ProcTable.NobodyWaitsForZombie` | kern/proc.c:266-298 | No process sleeps in wait while a child of it is a zombie, however exits, waits and the handing over of children to initproc interleave. |
| `ProcTable.StuckForever` | kern/proc.c:75-80 | When there is no memory for a kernel stack, ptable.lock is taken in every later state of the run. |
| `ShellSyntax.RoundTrip` | user/src/sh/main.c:343-462 | For every command tree with legal words and at most nine arguments per command, parsing its parenthesised print gives the tree back. |
| `ShellSyntax.TokenExact` | user/src/sh/main.c:276-324 | Character by character what gettoken takes: blanks, then one symbol, a double >, or everything that is neither blank nor symbol, then blanks. |
| `ShellSyntax.ParseExact` | user/src/sh/main.c:343-462 | The parser accepts exactly the texts whose tokens are a line of the grammar, with whatever blanks between them, and makes of them the command that the line means. |
| `ShellSyntax.LineParses` | user/src/sh/main.c:360-375 | Every line of the grammar, anywhere in a text where the end or a closing parenthesis follows, is parsed into its meaning. |
| `ShellSyntax.LineSound` | user/src/sh/main.c:360-375 | Whatever the parser accepts at any place is a line of the grammar there, and the command is its meaning. |
| `ShellSyntax.ItemsParse` | user/src/sh/main.c:390-461 | Words and redirections in any order: all the words become the arguments in order, inside all the redirections in order. |
| `ShellSyntax.AnyOrder` | user/src/sh/main.c:390-461 | A command printed with redirections before, between and after at most nine words is parsed into exactly those words in order, inside exactly those redirections in order. |
| `ShellParser.LineGood` | user/src/sh/main.c:281-324 | Whatever the input, the words that a parse records are words of the input and pairwise disjoint. |
| `ShellParser.WordsSurvive` | user/src/sh/main.c:464-509 | Every byte that nulterminate overwrites lies outside all words, so each word reads as what it was. |
| `ShellParser.ReadsAreWords` | user/src/sh/main.c:464-509 | The command that runcmd finds in the buffer is the one parsed. |
| `ShellParser.GetTok` | user/src/sh/main.c:281-324 | Token, extent and next position are those of the grammar, for every input. |
| `ShellParser.PeekAt` | user/src/sh/main.c:326-336 | It skips blanks and tells whether one of the characters is next. |
| `ShellParser.ParseRedirections` | user/src/sh/main.c:390-413 | The loop computes the grammar's redirections, and ends on every input. |
| `ShellParser.ParseArguments` | user/src/sh/main.c:445-461 | The loop computes the arguments that ShellSyntax.ItemsParse and ParseExact characterise, and ends on every input. |
| `ShellParser.ParseLineAt` | user/src/sh/main.c:360-375 | The recursive descent computes the grammar's parse and ends on every input, by the remaining length. |
| `ShellParser.NulTerminate` | user/src/sh/main.c:464-509 | Exactly the bytes after the words recorded become NUL. |
| `ShellParser.ParseCommand` | user/src/sh/main.c:343-358 | The parse of the input up to its first NUL, and in the buffer every word ended in place and otherwise as it was. |
| `Console.EraseUndoes` | kern/console.c:206-222 | Erasing undoes typing if and only if the character did not fill the buffer. |
| `Console.LineQueued` | kern/console.c:212-221 | A line that fits is queued as typed. |
| `Console.KeyEditing` | kern/console.c:194-224 | A key never touches what is committed, and the line under edit never holds a line end. |
| `Console.SpecialKeys` | kern/console.c:194-205 | Kill-line empties the line and leaves the queue; backspace and delete take the last character of the line, if there is one, and nothing else. |
| `Console.StoredKeys` | kern/console.c:206-222 | Every other key is stored while there is room, a carriage return as a line end; a line end, an end-of-file mark and the character that fills the buffer commit the line. |
| `Console.Console.Interrupt` | kern/console.c:183-225 | The ring and its three indices act as the line editor in front of a queue, for every sequence of keys; r <= w <= e <= r + INPUT_BUF. |
| `Console.Console.Read` | kern/console.c:47-80 | A read returns the committed bytes in order, up to a line end, an end-of-file mark or its length, whatever arrives while it sleeps; it ends killed or asleep only after it has run dry, so it returns whenever one of the three is committed already. |
| `Console.Console.Serve` | kern/console.c:47-80 | Over any run of keys and reads every key is edited in, every read does what a single one does, and what the reads take out is exactly the committed stream in order. |
| `Console.ReadsInOrder` | kern/console.c:47-80 | The bytes that any number of reads return, with the marks they consume and what is lost with killed calls, are exactly the committed stream in order, while the stream goes on growing between and during them. |

## Left out

- The fixed offset of the file system's partition on the card (kern/bio.c:113, kern/log.c:266-270): it is the same in both places.
- Device access: the card driver is one atomic read or write of a block; UART output, timers and interrupts are not modelled.
- The superblock's bytes: the model has the layout as a value.
- InodeCache.InodeCache.Ilock: takes the inode from a table of inodes in memory; as long as each of them is written through, that is what its block says.
- Durability.RunCrashAtomic: operations one after another. Durability.InterleavedRecovers has them interleaved at single log_write calls, but does not show that operations interleaved under the inode locks leave sound files when none is in progress.
- FileSystem.FileSystem.FileWrite: on files of devices it stops at ToDevice, where a write function of their own takes over; that the buffers run out while other operations keep theirs dirty is a panic of the buffer cache, not one of this model.
- FileTable.FileTable.Fileclose: the spinlock of the file table, which the source holds across begin_op, iput and end_op, is not modelled, nor are the panics of acquire and release if those sleep.
- FileTable.FileTable.Close: as for Fileclose.
- BufferCache.Cache.Bget: one process uses the cache at a time; with several, its test of the sleep lock is true only for the caller and lets a buffer in use be recycled.
- GroupCommit.ReservationsHold: assumes that an operation adds at most MAXOPBLOCKS entries. By GroupCommit.FewBlocksSuffice it is enough that it writes as many blocks; which chunks of filewrite do not is FileSystem.WriteSizeExact. The other results about groups do not assume it.
- FileSystem.FileSystem.Bmap: where balloc finds no free block, the source goes on with block number -1; the model stops there.
- FileSystem.FileSystem.WriteI: device inodes have functions of their own, which are not modelled.
- Creation.Create: with at most 65536 inodes; the references and inode locks that it takes and drops are those of InodeCache and SleepLock.
- stat and unlinking: they add no harder member. Unlinking is used by no system call.
- InodeCache.InodeCache.Namex: asks that every inode in use has a link, which is Histories.AlwaysLinked; inode sleep locks are left to SleepLock.
- Durability.LinkTransaction: of a crash once an inode is not written through it is shown only that the name is lost; other operations that follow before that inode is stored are not followed any further, and the same holds for CreateTransaction and WriteTransaction.
- Histories.AlwaysLinked: calls one after another, without crashes; the single reads, writes and links that system calls are made of.
- Mkfs.Mkfs.Build: at most 198 files, since mkfs does not check that inodes are left; reading the input files and cutting their names are not modelled, nor is the superblock it writes.
- Vm.Vm.MapPage: regions of one page, which is what all callers map; for longer ones the source steps eight pages at a time.
- Vm.Vm.DeallocUvm: assumes user pages contiguous from 0, because of the step over a missing table.
- Pages as bytes: a page is 512 words of a page number and flag bits, so copyout, uva2ka and loading a program are not modelled. Translation look-aside buffers are not modelled.
- exec: its placement of argument strings lets them overlap for some lengths.
- SleepLock.NoProcessLeftAsleep: for one lock, with code in the kernel not preempted; spinning is waiting, memory ordering and fairness are not modelled.
- ProcTable.DistinctPids: pids do not wrap around. User memory, files and names of processes are not part of this machine.
- References.CountsAreHolders: sys_dup's two statements are one step, since no other process reads the descriptor in between; running out of descriptors in open ends in a panic of fileclose and is not a step.
- ShellParser.ParseCommand: commands are values, so the arena they are allocated in and its limit are not modelled; nor is running them.
- Console.Console.Read: what arrives during each sleep is a parameter, since the console lock keeps interrupts out at other times; echo and the process listing are left out.
- Pipes, formatting, the user programs other than the shell, and number parsing.
