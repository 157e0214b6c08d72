# The BFS image tools, modelled and proved

A Dafny model of the tools that create, fill, empty and read BFS file system images (`tools/`, `common/`), and of the
keyboard ring buffer of the kernel. An image is a sequence of bytes behind a C `FILE`; the tools are methods that seek,
read and write it. Everything else is about what those bytes mean:

- `Images` and `Mounts` read an image as a **volume**: two allocation bitmaps, an inode table and data blocks.
- `Volumes` says when a volume is **consistent**: a block is marked exactly when it is block 0 or belongs to one file;
  each file's blocks, pointer blocks included, are nonzero, in range and ascending in the order `fs_add` takes them;
  inode bits, inode numbers and free inodes agree; names (31 characters) are unique.
- `Runs` abstracts a consistent volume to a **store**: a map from names to contents and two counters of free blocks
  and inodes. Whether an add succeeds is decided by the store alone.

The main results:

1. `AddTool.AddFile`, `DelTool.DeleteFile`, `DelTool.DeleteFileAtDatablocks`, `CreateTool.CreateImage` and
   `Reading.FsRead` are the tools, from the first byte of the superblock to the last byte written. On a consistent
   image each does to the store exactly what `Runs.StoreStep` says (`DeleteFile`, the code as written, for files of at
   most four blocks; for larger ones it still drops the name and no other file's contents). So what was added is what
   is read, no tool disturbs another file, a refused add changes no metadata byte, and the accounting of free blocks
   is exact.
2. `CreateTool.ToolRunsFromCreation`: every image that any run of adds and deletes reaches from a created one is
   consistent, and its free blocks and the blocks its files need add up to the data blocks.
3. `Steps.DeleteUndoesAdd` and `DelTool.DeleteUndoesAddOnDisk`: deleting an added file restores both bitmaps and the
   inode table; as written, exactly when the file has at most four blocks (`Misreading.UndoneExactly`).
4. `Commits.CommitExactlyOnSoundLayouts` and `Layout.LayoutSoundness`: for all legal counts (up to 65536 blocks), the
   three writes that end `fs_add` and `fs_del` store every consistent volume faithfully if and only if the layout is
   sound, or there is only the reserved inode and at least eight blocks: then the regions may overlap, in bytes that
   are always equal. For all other counts there is a consistent volume that no image stores. On sound layouts the
   inexact padding does no harm (`Images.PaddedWritesInOrder`, `Images.CommitView`).
5. `Misreading.AsWrittenExactly`: `fs_del` as written leaves all images holding a file of a given size consistent if
   and only if that size is at most four blocks. For every larger size there is an image of two files, the second just
   added, on which deleting the second frees a block of the first, now the least free block and so the first that
   `fs_add` takes (`Misreading.SampleFails`). `Misreading.DeletesRightlyExactly` is the condition for a single image:
   no pointer leads outside and the marks cleared are those of the file's blocks, no fewer and no more.
6. `Keyboards.RunIsFifo`: with the handler running between any two statements of `getc`, keys come out in arrival
   order as long as no more than 255 are undelivered. `Keyboards.OverflowExactly` says what the 256th does wherever
   `getc` stands: it leaves `getc` waiting on a full ring unless `getc` has just left its wait loop.
   `Keyboards.OverflowHappens` is a run that gets there: 256 presses of a key before `getc` runs.
   `Keyboards.GetcReturnsTyped` adds that the keys are the characters the user typed, shift included.
7. What all this means on the bytes, in native arithmetic: `CreateTool.CreateImage` (every byte of a created image), `Format.FileByteOnDisk` (every byte of a stored file), `Placing.InodePlaced` to
   `Placing.LeavesPlaced` (what an add puts where), `DelTool.DeleteFile` (which marks the as-written delete clears),
   `Layout.LayoutRegions`, `Layout.SuperblockFields`, `Inodes.InodeFields` and `Mounts.SuperblockRead` (the format).

## Where the code and its intent part

The model follows the code. Each point below is a proved statement, not a repair:

- `tools/fs_del.c:53` reads the pointer block `indirect_block` without adding `sb->datablocks_start`, which the writer
  (`tools/fs_add.c:81`) and the reader (`tools/fs.c:53`) both add. `DeleteFile` models it as written: base 0.
  `DeleteFileAtDatablocks` is the same code with the base of the writer and is right for files of every size. The
  16-bit numbers found in a misread block can lie outside the bitmap's memory; the model answers `Faulted` there.
- `tools/blocks.c:26` pads `data_len % block_size` bytes where the block's rest was meant. The write ends at a block
  boundary if and only if the data is shorter than a block, a multiple of it, or fills exactly half of its last block
  (`Disk.PaddingCompletesExactly`); otherwise it stops short or runs into the next block, by which half the data ends in
  (`Disk.PaddingMisses`). Both happen to bitmaps (`Disk.PaddedBitmaps`).
- `tools/superblock.c:33,38` give a bitmap `ROUND_UP(count/8, block_size)` blocks and lose a partial last byte; the tools
  are 32-bit programs (`-m32` in `tools/makefile`), so `ROUND_UP` of zero wraps around to a region of 4 GB, which
  has no length in 32-bit offsets. `Layout.Sound` excludes the counts for which regions then overlap,
  `Commits.Storable` exactly those for which that does damage.
- `tools/fs.c:45` compares with `>`, so an offset equal to the largest file size passes and indexes past the nine indirect
  pointers (`Reading.RangeCheckExact`).
- Block pointers are 16 bits, `fs_create` accepts more than 65536 blocks (`Layout.PointersFitExactly`).
- `tools/bitmap.c:51` asserts a legal block size only when the first bitmap is written: `fs_create` aborts there exactly
  when the block size is an illegal multiple of 512 and the other arguments pass, with one block behind it that no tool
  accepts (`CreateTool.CreateImage`).
- The overflow guard of `kernel/drivers/keyboard.c:40` compares an unsigned char with 256 and never fires.
  `keyboard_init` leaves `size` alone: a ring initialised again is empty if and only if `size` said so before
  (`Keyboards.ResetEmptiesExactly`).

## How to read the proofs

Products, quotients and remainders of block numbers and sizes are the recursive `Times`, `Quot` and `Rem` of `Arith`,
proved equal to `*`, `/` and `%` there; the methods compute with the native operators or with these functions. The
pointer tree of a file is one chain of positions (`Chains`): block `k` of the chain is the `k`-th block `fs_add` takes.
`Realizing` shows that every volume is the view of some image, so that statements about volumes are not empty.
`Format` and `Placing` restate the views and the closed forms on bytes and native numbers.
`Filling` holds the state of its allocation loops as pure predicates, `AddTool` the loops. An inode that the source
updates through a pointer into the table is a local value that is stored back where the source's pointer leads.

## Model

| member | source | states |
|---|---|---|
| Bytes.LowByteFirst | common/fs/superblock.h:16-35 | 16-bit and 32-bit fields have their low byte first |
| Bytes.BitValues | common/fs/bitmap.c:7-9 | bit k of a byte has the value 1 << k |
| Bytes.OneBitChanges | common/fs/bitmap.c:15-20 | setting or clearing a bit by mask leaves the other seven bits of the byte alone |
| Bits.ReserveFirst | common/fs/bitmap.c:25-33 | taking the least clear bit removes the head of the ascending free list and nothing else |
| Bits.MarkPrefix | tools/fs_add.c:21-31 | taking the first k free blocks leaves the rest of the free list, in order |
| Bits.FreeMany | tools/fs_del.c:38-63 | clearing n distinct marked bits raises the free count by exactly n |
| Bits.ClearUndoesMark | tools/fs_del.c:38-63 | clearing blocks that were free and then marked restores the bitmap |
| Bits.FreeFromMeans | common/fs/bitmap.c:25-33 | the free list holds exactly the clear indices, in ascending order |
| Bitmaps.UnpackUpdate | common/fs/bitmap.c:15-20 | the packed update changes exactly the addressed element of the sequence of bits |
| Bitmaps.Bitmap.constructor | tools/bitmap.c:13-21 | a new bitmap has ceil(count/8) zero bytes |
| Bitmaps.Bitmap.Get | common/fs/bitmap.c:7-9 | the bit at the index, for every index inside the buffer |
| Bitmaps.Bitmap.Set | common/fs/bitmap.c:15-20 | all bits of the buffer are as before but for the addressed one; all other bytes as they were |
| Bitmaps.Bitmap.ReserveFirstAvailableBit | common/fs/bitmap.c:25-33 | the least free index is taken; -1 exactly when none is free, and then nothing changes |
| Bitmaps.Bitmap.GetFreeBits | common/fs/bitmap.c:38-45 | the length of the free list |
| Bitmaps.BitmapRead | tools/bitmap.c:36-43 | the bytes from the 32-bit offset of the start block on, or from where the file stands when that seek fails; zeros beyond the end of the file |
| Bitmaps.BitmapWrite | tools/bitmap.c:50-55 | the bitmap's bytes and their padding at the 32-bit offset of the start block |
| CStrings.Memset | common/func.c:9-14 | the first count bytes have the value, the rest is unchanged |
| CStrings.Memcpy | common/func.c:20-26 | exactly the addressed bytes are copied |
| CStrings.Strncpy | common/func.c:42-52 | the string cut or zero-padded to count bytes; reads no byte behind its terminator |
| CStrings.Strncmp | common/func.c:76-94 | the difference of the first characters that differ among the first count, zero if and only if there are none |
| CStrings.PaddedReadsBack | common/func.c:42-52 | a name copied with strncpy and compared with strncmp is the name cut at count |
| CStrings.CompareAt | common/func.c:76-94 | strings that agree up to a place compare as their characters there |
| Disk.PaddingCompletesExactly | tools/blocks.c:26 | the padded write ends at a block boundary, as promised, if and only if the data is shorter than a block, a multiple of it or ends at the middle of one |
| Disk.PaddingMisses | tools/blocks.c:26 | otherwise it stops short exactly when the data ends in the first half of a block and runs past exactly when it ends in the second |
| Disk.PaddedBitmaps | tools/blocks.c:26 | in blocks of 512 bytes a bitmap of 513 bytes ends at byte 514, one of 1000 bytes 464 bytes into the block behind its own |
| Disk.PutPadded | tools/blocks.c:24-32 | data and padding written one after the other are one write of the padded data |
| Disk.BlocksWrite | tools/blocks.c:16-33 | every byte of the file: data at the 32-bit offset of the block, the code's number of zeros behind it, all else as before |
| Disk.BlockRead | tools/blocks.c:40-49 | every byte of the destination: the block at the 32-bit offset as far as the file goes, else as before |
| Disk.ByteOffsetIsProduct | tools/blocks.c:22 | the offset of block and size is their product modulo 2^32 |
| Layout.SuperblockFields | common/fs/superblock.h:16-35 | each field read from its own bytes, low byte first |
| Layout.LayoutRegions | tools/superblock.c:15-49 | for all counts fs_create accepts: signature, version, label; regions in order, and each with the fewest blocks that hold the table or the whole bytes of the bitmap, or 4 GB for a bitmap without a whole byte |
| Layout.SuperblockRoundTrip | common/fs/superblock.h:16-35 | a superblock is read back from its 78 bytes |
| Layout.SuperblockCreate | tools/superblock.c:15-49 | advancing current_block over the regions gives the closed form of LayoutRegions in 32-bit arithmetic; the label cut at 31 characters and filled with zeros |
| Layout.RoundUpCeiling | common/fs/fs.h:4 | ROUND_UP is the ceiling of the quotient for positive sizes |
| Layout.RoundUpUnderflow | common/fs/fs.h:4 | for size 0 it wraps around to a region of exactly 2^32 bytes |
| Layout.BitmapRegion | tools/superblock.c:32-39 | a bitmap of 8 to 65536 bits fits its region if and only if it has no partial last byte at a block boundary |
| Layout.TableSize | tools/superblock.c:30-45 | counting bytes and counting inodes per block give the table the same number of blocks, enough for it |
| Layout.ExactOffsets | tools/superblock.c:28-47 | 32-bit offsets of all regions are the exact products and stay below 2^31 |
| Layout.GapFits | tools/superblock.c:32-39 | the distance to the next region holds the bitmap, or lacks exactly its partial last byte |
| Layout.BitmapsInOrder | tools/superblock.c:32-47 | for all counts fs_create accepts, each region ends in 32-bit offsets where the next starts, a bitmap of fewer than 8 bits taking no room |
| Layout.DataBlocksInOrder | tools/blocks.c:22 | data blocks lie one after the other as long as they stay below 2^31 |
| Layout.LayoutSoundness | tools/superblock.c:28-47 | for all legal sizes and counts the regions are disjoint if and only if neither bitmap has a partial last byte at a block boundary |
| Layout.PointersFitExactly | common/fs/inode.h:17-18 | all block numbers survive 16-bit pointers if and only if there are at most 65536 |
| Inodes.InodeFields | common/fs/inode.h:13-19 | each field of an inode read from its own bytes of the 64, low byte first |
| Inodes.NameMatches | common/fs/inode.c:45-54 | two names are the same key exactly when the name field has the first 31 characters of the file name and a zero behind a shorter one |
| Inodes.PointersRoundTrip | tools/fs_add.c:74-81 | a pointer block is read back as the pointers written |
| Inodes.InodeRoundTrip | common/fs/inode.h:13-19 | an inode is read back from its 64 bytes |
| Inodes.TableRoundTrip | tools/inode.c:61-82 | so is a table of them |
| Inodes.ZeroInodeDecodes | tools/fs_del.c:66 | 64 zero bytes are the zero inode |
| Inodes.ZeroTableDecodes | tools/inode.c:16-18 | a zeroed table is a table of zero inodes |
| Inodes.InodeTable.constructor | tools/inode.c:13-22 | a new table holds zero inodes |
| Inodes.InodeTableRead | tools/inode.c:61-73 | the table decoded from the bytes at the 32-bit offset, zeros beyond the end of the file |
| Inodes.InodeTableWrite | tools/inode.c:80-82 | the encoded table and its padding at the 32-bit offset |
| Inodes.LookupFrom | common/fs/inode.c:45-54 | the first used inode under a name: it matches, and none before it does |
| Inodes.FsGetFileInode | tools/fs.c:12-24 | the first used inode whose name field has the first 31 characters of the file name and a zero behind a shorter one, or -1 when there is none |
| Inodes.InodeReserveFirstAvailable | common/fs/inode.c:17-24 | the least free inode is marked and numbered; -1 exactly when none is free, and then nothing changes |
| Chains.ChainPosition | tools/fs_add.c:63-82 | every position of the allocation order is exactly one direct block, pointer block or leaf of the file |
| Chains.ChainGrows | tools/fs_add.c:63-82 | a data block takes one more block, or two when it opens a pointer block |
| Chains.SlotOfDataPos | tools/fs.c:39-55 | the divisions of the reader lead to the pointer that the allocation loops stored |
| Chains.DataPosOrder | tools/fs_add.c:63-82 | later data blocks come later in the allocation order |
| Chains.GroupsOfMax | tools/fs.c:45 | a file needs at most nine pointer blocks if and only if it has at most 4 + 9 * (bs / 2) data blocks |
| Volumes.FilesByLookup | tools/fs.c:12-24 | on a consistent volume a name is stored if and only if the lookup finds it, and its contents are that inode's |
| Volumes.NamesAreUnique | tools/fs.c:16-22 | at most one used inode answers to a name, and the lookup returns it |
| Volumes.DataBlockInChain | tools/fs.c:32-56 | address translation of an in-file offset gives the chain's block for its logical block |
| Volumes.DataBlocksAscend | tools/fs_add.c:63-79 | data block numbers of a stored file ascend with the offset |
| Volumes.PointerBlockBetween | tools/fs_add.c:70-79 | a pointer block's number is above exactly the data blocks before its group and below all others |
| Volumes.TranslationInjective | tools/fs.c:32-56 | offsets in different logical blocks, of one file or two, translate to different marked blocks |
| Volumes.SameChainSameFile | tools/fs.c:82-96 | writes outside a file's chain leave its chain, its contents and its invariant alone |
| Adding.KeyOfNewInode | tools/fs_add.c:56 | the stored name of a new inode is the file name cut at 31 characters |
| Adding.BuiltContents | tools/fs_add.c:59-82 | a file laid out as the loops do reads back as its contents, through direct and indirect pointers and the partial last block |
| Adding.BuiltFileOk | tools/fs_add.c:59-82 | such a file meets the invariant of stored files, unused pointers being zero |
| Steps.StoredFileSurvives | tools/fs_add.c:21-32 | writing to unmarked blocks leaves every stored file as it was |
| Steps.AddKeepsVolume | tools/fs_add.c:51-91 | a successful add keeps the volume consistent |
| Steps.AddStoresFile | tools/fs_add.c:51-91 | afterwards the stored files are the earlier ones and the new one, byte for byte |
| Steps.AddTakesSpace | tools/fs_add.c:60-79 | the free lists lose exactly the blocks the file needs and one inode |
| Steps.RefusedAddIsAtomic | tools/fs_add.c:84-87 | an add that gives up leaves the volume consistent and every file as it was |
| Steps.DeleteKeepsVolume | tools/fs_del.c:35-71 | a delete that frees the file's chain keeps the volume consistent |
| Steps.DeleteDropsFile | tools/fs_del.c:35-71 | afterwards the stored files are the earlier ones without the deleted name |
| Steps.RemovalDropsFile | tools/fs_del.c:35-71 | whatever marks are cleared, the removed file is gone and every other file reads as before |
| Steps.RemovalConsistentExactly | tools/fs_del.c:38-63 | the volume is consistent afterwards if and only if the marks cleared are those of the file's chain |
| Steps.DeleteReturnsSpace | tools/fs_del.c:35-63 | the free counts rise by exactly the blocks of the file and one inode |
| Steps.DeleteUndoesAdd | tools/fs_del.c:35-71 | deleting an added file restores both bitmaps and the inode table |
| Runs.SuccessCondition | tools/fs_add.c:46-87 | name absent, inode free, size within the pointer tree and enough free blocks, wherever they are, decide success |
| Placing.AcceptsExactly | tools/fs_add.c:46-87 | the store accepts a file exactly when the name is new, an inode is free, the size is at most (4 + 9 * (bs / 2)) * bs and there are free blocks for its data blocks and pointer blocks |
| Placing.PositionsAre | tools/fs_add.c:63-82 | the places of data blocks and pointer blocks in the allocation order, in native arithmetic |
| Placing.InodePlaced | tools/fs_add.c:51-57 | a successful add takes the least free inode, numbers it, enters name and size byte by byte and changes no other inode |
| Placing.DirectPlaced | tools/fs_add.c:63-65 | direct pointer j is the j-th free block, or 0 where the file ends before |
| Placing.IndirectPlaced | tools/fs_add.c:70-73 | indirect pointer q is the free block at its place in the allocation order, or 0 |
| Placing.MarksPlaced | tools/fs_add.c:60-82 | exactly the least free blocks, data and pointer blocks together, are marked; other blocks keep their contents |
| Placing.DataPlaced | tools/fs_add.c:21-32 | byte k of data block l is the file's, and zero behind its end |
| Placing.LeavesPlaced | tools/fs_add.c:74-81 | number r of pointer block q is the free block taken r + 1 blocks later, or 0 behind the last data block |
| Runs.AddRefines | tools/fs_add.c:39-99 | an add, successful or not, does to the store what the abstract machine does |
| Runs.DeleteRefines | tools/fs_del.c:22-79 | so does a delete that frees the file's chain |
| Runs.FreshVolume | tools/fs_create.c:63-76 | the volume fs_create leaves is consistent, empty, and free but for inode 0 and block 0 |
| Runs.RunKeepsBalance | tools/fs_add.c:60-79 | free blocks and the blocks that stored files need always add up to the same total, and so do inodes |
| Runs.ToolStepRefines | tools/fs_add.c:39-99 | one tool run on a consistent image keeps it consistent and does what the abstract store does |
| Runs.ToolRunRefines | tools/fs_add.c:39-99 | so does any sequence of tool runs, outcome by outcome |
| Images.WriteDataBlock | tools/fs_add.c:29 | writing data block b changes that block of the volume and nothing else, metadata bytes included |
| Images.PaddedWrite | tools/blocks.c:24-32 | a padded write keeps its own bytes, all before it and all a block or more behind it |
| Images.PaddedWritesInOrder | tools/fs_add.c:89-91 | three padded writes at increasing disjoint places read back exactly; changes end within a block of the last |
| Images.CommitKeepsBlocks | tools/fs_add.c:91 | changes that end inside data block 0 leave data blocks 1 and up of the volume as they were |
| Images.CommitBytes | tools/fs_add.c:89-91 | the commit leaves the three regions holding what was written, the superblock, and every byte from data block 1 on |
| Images.CommitView | tools/fs_add.c:89-91 | after the commit the volume has the new bitmaps and table, its data blocks and the superblock as before |
| Mounts.SoundIsNavigable | tools/superblock.c:61-83 | a superblock created for sound counts passes validation and its 32-bit offsets are exact |
| Mounts.DataBlockOffset | tools/blocks.c:22 | the 32-bit offset of every data block is the exact product, below 2^31 |
| Mounts.SuperblockRead | tools/superblock.c:61-83 | the decoded first bytes, accepted exactly when they begin with 66, 70, 83, byte 4 is 1, and bytes 38 to 41, low byte first, are 512, 1024, 2048, 4096 or 8192 |
| Mounts.AcceptedBytes | tools/superblock.c:61-83 | the same of any bytes, a file shorter than the superblock being continued with zeros |
| Mounts.DataBlockBytes | tools/blocks.c:46 | block_read's offset for data block b addresses that block of the volume, inside the image |
| Mounts.Load | tools/fs_add.c:40-44 | the bitmaps and the table read are those of the volume |
| Mounts.Commit | tools/fs_add.c:89-91 | the three writes in their order |
| Mounts.CommitVolume | tools/fs_del.c:69-71 | the commit seen on the volume: new bitmaps and table, same data blocks, same superblock |
| Format.PackedBit | common/fs/bitmap.c:7-9 | index i of a bitmap is the bit of value 1 << (i % 8) in byte i / 8 |
| Format.InodeMarkOnDisk | tools/bitmap.c:36-43 | the mark of inode i is that bit behind the 32-bit offset of inode_bitmap_start |
| Format.BlockMarkOnDisk | tools/bitmap.c:36-43 | the mark of data block b is that bit behind the 32-bit offset of datablock_bitmap_start |
| Format.InodeOnDisk | tools/inode.c:61-73 | inode i is decoded from the 64 bytes at 64 * i behind the 32-bit offset of inode_start |
| Format.NamesOnDisk | tools/fs.c:12-24 | the stored names are those that used inodes answer to; the file's length is that inode's size |
| Format.FileByteOnDisk | tools/fs.c:32-103 | byte o of a stored file lies at o % bs in the block named by direct pointer o / bs, or by the 16-bit number that the divisions give in the block of an indirect pointer |
| Format.PointerOnDisk | tools/fs.c:37-55 | for every offset below the largest file size, in the file or not, the reader's pointer is that direct pointer or that number |
| Commits.TableSpoilsBitmap | tools/superblock.c:38-41 | a table that starts inside the block bitmap overwrites a different byte |
| Commits.BitmapSpoilsBitmap | tools/superblock.c:33-37 | so does a block bitmap that starts inside the inode bitmap |
| Commits.FewBlocksSpoil | tools/superblock.c:38-41 | with fewer than 8 blocks no commit stores the volume fs_create writes |
| Commits.LastBlockSpoils | tools/superblock.c:38-41 | with a partial last byte of the block bitmap none stores a file in the last block |
| Commits.LastInodeSpoils | tools/superblock.c:33-37 | with a partial last byte of the inode bitmap none stores the volume fs_create writes |
| Commits.FewInodesSpoil | tools/superblock.c:33-37 | with 2 to 7 inodes none stores a volume with an empty file |
| Commits.OneInodeStored | tools/superblock.c:33-41 | with one inode and at least 8 blocks the one possible volume is stored although regions overlap |
| Commits.CommitExactlyOnSoundLayouts | tools/fs_add.c:89-91 | for all legal counts the commit stores every consistent volume on every image if and only if the layout is sound or has one inode and at least 8 blocks; otherwise some consistent volume is stored on no image |
| Reading.MaxFileSizeFits | tools/fs.c:39-54 | for block sizes up to 8192, the largest legal one, the products of the address arithmetic stay below 2^31, so 32-bit arithmetic is exact |
| Reading.RangeCheckExact | tools/fs.c:45-50 | of the offsets let through, exactly the largest file size indexes the tenth indirect pointer |
| Reading.Locate | tools/fs.c:37-55 | the divisions find the slot of the pointer tree for the offset, or report it out of range |
| Reading.InFileBelowMax | tools/fs.c:45 | in-file offsets are strictly below the largest file size |
| Reading.SlotInBounds | tools/fs.c:48-55 | below the largest file size the divisions stay inside both pointer arrays |
| Reading.IndirectBlockStands | tools/fs.c:49-55 | behind an in-file offset the pointer block is a real one of the file |
| Reading.FsOffsetToBlock | tools/fs.c:32-56 | the number that the pointer tree has for the offset, inside the file or not, the reserved block 0 read as a pointer block where the inode has none; -1 beyond the largest file size |
| Reading.PointedInFile | tools/fs.c:37-55 | for an in-file offset that is the pointer of the volume |
| Reading.FetchBlock | tools/fs.c:87-88 | the block read holds the file's bytes from the offset on |
| Reading.Deliver | tools/fs.c:92 | one memcpy extends the delivered prefix and touches nothing behind it |
| Reading.CopyRange | tools/fs.c:84-96 | the loop fills dest[0..count) with the file's bytes, without gap or overlap, and nothing else; it terminates |
| Reading.LookupInImage | tools/fs.c:76 | the inode a lookup finds in a consistent image is a stored file with the contents of that name |
| Reading.FindFile | tools/fs.c:70-80 | loading the metadata and looking up gives the table's inode, or nothing |
| Reading.ReadFile | tools/fs.c:70-102 | the range of the found file is copied; nothing is written when there is none |
| Reading.FsRead | tools/fs.c:65-103 | returns exactly the stored bytes of the range; not found exactly when the name is not stored |
| Reading.ReadsAddUp | tools/fs.c:65-103 | two runs of fs_read on adjoining ranges of a stored file, into buffers of their own, give what one run on both gives |
| Filling.DataLeftMeans | tools/fs_add.c:26-30 | bytes are left exactly as long as blocks are missing |
| Filling.ProgressByOne | tools/fs_add.c:21-32 | one allocation extends the stored prefix of the file by one block, and the shadow counter stays the free count |
| Filling.TakePointerBlock | tools/fs_add.c:71-72 | so does taking a pointer block, with no data block stored |
| Filling.WriteGroup | tools/fs_add.c:77-81 | the pointer block written after its leaves names exactly them and harms no block stored |
| Filling.SettleGroup | tools/fs_add.c:70-82 | after a pass all stored blocks are reachable, or the last free block went to a pointer block without leaves |
| Filling.StoppedExactly | tools/fs_add.c:63-84 | when the loops stop, nothing is left if and only if the file fits the pointer tree and the free blocks |
| Filling.AfterLoops | tools/fs_add.c:59-87 | what both loops leave: the whole file in the least free blocks, or only free blocks written |
| Filling.StoppedLate | tools/fs_add.c:63-82 | when the loops stop, every data block for which there is a pointer and a free block is written |
| AddTool.WriteData | tools/fs_add.c:29 | at most a block of data, zero-padded, in one data block; metadata bytes unchanged |
| AddTool.AllocBlockAndCopy | tools/fs_add.c:21-32 | the least free block takes the next chunk of the file; the counter stays equal to the free count, so -1 never comes back |
| AddTool.FillDirect | tools/fs_add.c:62-65 | up to four blocks are stored and entered in the inode |
| AddTool.FillLeaves | tools/fs_add.c:77-79 | the leaves of one pointer block are stored, their numbers gathered in memory |
| AddTool.FillGroup | tools/fs_add.c:71-81 | one pass over an indirect pointer, its block taken before its leaves and written after them |
| AddTool.FillIndirect | tools/fs_add.c:70-82 | up to nine passes, with the inode's pointers to match |
| AddTool.FillFile | tools/fs_add.c:59-87 | both loops: success if and only if size and free blocks allow, then the file in the least free blocks |
| AddTool.NameOver | tools/fs_add.c:56 | the inode's name field after strncpy of 31 characters over it, its last byte kept |
| AddTool.RefusedOnDisk | tools/fs_add.c:84-87 | an add that gives up with the metadata bytes untouched is a refused step of the volume |
| AddTool.CommitFile | tools/fs_add.c:84-91 | with all blocks stored, entering the inode and committing is the volume step of a successful add |
| AddTool.StoreFile | tools/fs_add.c:51-91 | from the reserved inode to the commit: the volume step of an add; without enough blocks no metadata byte changes |
| AddTool.FileExistsIn | tools/file.c:22-24 | whether the lookup finds the name |
| AddTool.AddToVolume | tools/fs_add.c:39-99 | the same with lookup and reservation, each refusal exactly in its case: the image unchanged byte for byte, or its metadata when blocks run out |
| AddTool.AddFile | tools/fs_add.c:39-99 | stores the file exactly when the abstract store accepts it; each refusal exactly in its case, the existing name first, then the full inode table; then all files read as before, no metadata byte changes, and out of blocks the data blocks that found room are written |
| Freeing.NamedIsChain | tools/fs_del.c:38-63 | the nonzero pointers that delete follows name exactly the file's chain if pointer blocks are read where they are |
| Freeing.SmallFileReadsNothing | tools/fs_del.c:46-48 | a file of at most four blocks has no pointer block to read |
| DelTool.ClearBit | tools/fs_del.c:40-43 | clearing a named block's bit |
| DelTool.FreeDirect | tools/fs_del.c:39-44 | exactly the bits named by direct pointers are cleared |
| DelTool.FreeLeaves | tools/fs_del.c:55-61 | exactly the bits one block names are cleared; a fault exactly when a number lies outside the bitmap's memory |
| DelTool.FreeIndirect | tools/fs_del.c:46-63 | exactly the bits of the pointer blocks and of what is read for them are cleared |
| DelTool.FreeBlocks | tools/fs_del.c:38-63 | both loops |
| DelTool.RemoveFile | tools/fs_del.c:35-71 | the volume without the inode and the named blocks, or a fault and no change |
| DelTool.DeleteFromVolume | tools/fs_del.c:22-79 | the exact effect of delete for files of every size, with pointer blocks read at either base |
| DelTool.FreesTheChain | tools/fs_del.c:38-63 | the named blocks are the file's chain when read at the data blocks or when the file has at most four blocks |
| DelTool.RemovalUndoesAdd | tools/fs_del.c:35-71 | the inode found and the marks named after an add are the ones it took; no pointer leads outside |
| DelTool.DeleteUndoesAddOnDisk | tools/fs_del.c:35-71 | add and then delete on an image restores both bitmaps and the table, as written for at most four blocks |
| DelTool.DeleteDropsName | tools/fs_del.c:35-71 | whatever bits a delete clears, the stored files are the earlier ones without the name |
| DelTool.ClearedByBytes | tools/fs_del.c:38-63 | the blocks that the as-written delete clears, read off the bytes of inode and image: the inode's pointers and the 16-bit numbers in the blocks at bs * indirect_ptr[q] |
| DelTool.DeleteFile | tools/fs_del.c:22-79 | as written: right for files of at most four blocks; for every size exactly the marks that the bytes name are cleared, a fault exactly when one of these numbers lies outside the bitmap's memory, inode and its mark cleared, data blocks as before, and the stored files without the name |
| DelTool.DeleteFileAtDatablocks | tools/fs_del.c:22-79 | with the writer's base: right for files of every size |
| Misreading.DeletesRightlyExactly | tools/fs_del.c:38-63 | on one image the as-written delete is right if and only if no pointer leads outside and it clears the marks of the file's chain and no others |
| Misreading.SampleExists | tools/fs_del.c:53 | for every legal block size and every possible size beyond four blocks there is a two-file sample image, the second file just added |
| Misreading.SampleFails | tools/fs_del.c:53 | on a sample the as-written delete of the second file runs to its end, clears the mark of a block of the first, now the head of the free list, and leaves the image inconsistent |
| Misreading.AsWrittenExactly | tools/fs_del.c:53 | the as-written delete leaves all images consistent, without a fault, if and only if the size is at most four blocks |
| Misreading.UndoneExactly | tools/fs_del.c:53 | the as-written delete undoes every add of a file of a given size, both bitmaps and the table, if and only if the size is at most four blocks |
| CreateTool.SuperblockWrite | tools/superblock.c:88-92 | block 0 holds the superblock and zeros |
| CreateTool.ReservedBitmap | tools/fs_create.c:64-65 | a bitmap with bit 0 set and all others clear |
| CreateTool.WriteMetadata | tools/fs_create.c:63-76 | both bitmaps and the empty table are written in order |
| CreateTool.ClearDatablocks | tools/fs_create.c:79-83 | the loop writes zeros from the first data block to the end of the last and changes nothing before |
| CreateTool.AllCleared | tools/fs_create.c:79-83 | behind complete metadata that gives the image its length and empties every data block |
| CreateTool.FinishImage | tools/fs_create.c:79-83 | on metadata for sound counts the loop completes an empty consistent image |
| CreateTool.WriteImage | tools/fs_create.c:59-83 | everything fs_create writes is an empty consistent image when the counts are sound |
| CreateTool.MetadataBytes | tools/fs_create.c:59-76 | the three padded writes leave header, a 1 at the start of each bitmap that has a region, and zeros, and end within the first data block, whether regions overlap or not |
| CreateTool.WriteAccepted | tools/fs_create.c:59-83 | every byte of the image for accepted counts, sound or not, that end below 2^31; consistent if and only if they are sound |
| CreateTool.EmptyImageIsSound | tools/fs_create.c:59-83 | an image that is consistent and empty was laid out for sound counts |
| CreateTool.CreateImage | tools/fs_create.c:38-94 | exactly which arguments are accepted, refused or abort and what is left then; for accepted ones every byte of an image that ends below 2^31, and a consistent empty image if and only if the counts are sound |
| CreateTool.ToolRunsFromCreation | tools/fs_create.c:59-83 | every image reached from a created one is consistent, behaves as the store, and conserves blocks and inodes |
| Keyboards.HandlerRefines | kernel/drivers/keyboard.c:17-54 | a key that arrives with room left joins the end of the queue wherever getc stands; other codes change nothing in it |
| Keyboards.GetcRefines | kernel/drivers/keyboard.c:56-64 | getc leaves its wait loop exactly when a key is there, takes the oldest, and its other statements keep the queue |
| Keyboards.FinishRefines | kernel/drivers/keyboard.c:56-64 | a getc run alone to its next wait takes at most the oldest key and keeps the rest of the queue |
| Keyboards.OverflowExactly | kernel/drivers/keyboard.c:40-50 | the guard never fires; wherever getc stands, it next waits on a ring that holds keys if and only if the 256th undelivered key arrived and getc had not just left its wait loop; in all other cases the queue is intact |
| Keyboards.OverflowHappens | kernel/drivers/keyboard.c:39-64 | from any waiting state with nothing received, 256 presses before getc runs leave it waiting with all 256 keys undelivered |
| Keyboards.ResetEmptiesExactly | kernel/drivers/keyboard.c:10-15 | a ring initialised again is empty if and only if size already was, but for a getc in progress |
| Keyboards.RunIsFifo | kernel/drivers/keyboard.c:39-64 | over any interleaving with at most 255 undelivered keys, arrival order, none lost or repeated, and size exact but for a getc in progress |
| Keyboards.RunTypes | kernel/drivers/keyboard.c:17-54 | over any run shift is down exactly when the last shift code that came was a press, and the keys that arrive are those typed, each with shift as it was before it |
| Keyboards.GetcReturnsTyped | kernel/drivers/keyboard.c:39-64 | from the initial state on getc returns what was typed, in order, and the ring holds the rest |
| Keyboards.InitialIsFifo | kernel/drivers/keyboard.c:3-15 | the initial state is one such state, with nothing received and getc waiting |
| Keyboards.Keyboard.Init | kernel/drivers/keyboard.c:10-15 | the driver starts in it |
| Keyboards.Keyboard.KeyboardInit | kernel/drivers/keyboard.c:10-15 | initialising again resets head, tail and shift and nothing else |
| Keyboards.Keyboard.KeyboardHandler | kernel/drivers/keyboard.c:17-54 | the handler's branches and updates are the specified step |
| Keyboards.Keyboard.GetcStatement | kernel/drivers/keyboard.c:56-64 | each statement of getc is the specified step |

## Left out

- Arguments, usage messages, printing, opening and closing files, and running out of memory; a file to add is a sequence of bytes, an image the bytes behind a `FILE` that can be extended without limit.
- `fs_list`, `fs_info`, `fs_cat`, `inode_get_from_inode`, `inode_get_next`: loops that print, or lookups that would add only easy members.
- The kernel's own reader, file iterator and descriptor table (`kernel/fs/fs.c`); the tools' reader is the one modelled.
- AddTool.AddFile: takes files below 2^31 bytes, because `file_size` returns a 32-bit `long`; a failed `stat` (size -1) is not part of this model.
- AddTool.AddFile, DelTool.DeleteFile, Reading.FsRead: say nothing about images that pass the superblock checks and are not consistent, nor about images with more than 65536 data blocks.
- CreateTool.CreateImage: images whose data blocks reach 2 GB, where `fseek` fails; what later commits can store for accepted counts that are not sound is CommitExactlyOnSoundLayouts.
- Reading.FsRead: ranges that reach past the end of the file, which the code does not check; FsOffsetToBlock covers such offsets.
- Reading.FsOffsetToBlock: the offset that equals the largest file size, where the code reads past the inode (see RangeCheckExact).
- DelTool.DeleteFile: a pointer beyond the bitmap's memory ends the run as `Faulted` with the image unchanged; what the C program does after such an access is not described.
- Mounts.Commit, AddTool.StoreFile: writes that fail or stop half-way; stdio is taken to do what it is asked.
- Keyboards.GetcRefines: each C statement of `getc` is atomic; the machine instructions of `size--` are not interleaved.
- Keyboards.HandlerRefines: the port reads and `scan2char` are parameters; the overflow message is not modelled.
