# A verified model of the GageRoss simulated file system

The repository implements a toy block file system in Go
(`FileSystem/GageRossFileSys.go`). All its state lives in two process-wide
arrays: `VirtualDisk`, 6144 blocks of 1024 bytes, and `Inodes`, 80 in-memory
inode records. The operations are:

- initialisation: writing the superblock `{1, 2, 7}` to block 0, clearing the
  inode table and writing the root directory's image to block 2;
- first-fit allocation of inode slots and of data blocks, where a block is
  free when all its bytes are zero;
- gob-encoded inode images read from and written to disk blocks;
- CreateFile, AddFileToDirectory, GetCorrectInode, Unlink and Open on those
  images;
- the data path. WriteFile cuts data into 1024-byte chunks. Each chunk goes
  into the first free block. The block is recorded in one of three direct
  slots, or else in the single slot of a lazily allocated indirect block.
  ReadFile concatenates the recorded blocks.

The model follows the code as written, including these quirks:

- The on-disk inode images and the `Inodes` table are two separate stores
  that are never synchronised.
- CreateFile never marks its table slot valid. So right after initialisation
  every CreateFile writes its inode to block 0, over the superblock.
- WriteFile never updates `DataSize`.
- ReadFile returns whole blocks, not the bytes that were written.
- An all-zero chunk leaves its block "free".
- A file holds at most four blocks. Later chunks are written to disk but are
  recorded nowhere.
- GetCorrectInode compares the full 12-byte name field with the name it is
  given, so a name shorter than 12 bytes is never found.

One would expect a capacity error for a file larger than four blocks, and
lookups that pad the name they are given as CreateFile pads it. The code
does neither, and the model follows the code.

Every Go run-time panic and every `log.Fatal` becomes an `Aborted(fault)`
result (`Outcomes.Fault`). This covers a `-1` sentinel or a bad number used
as an index, a gob decoding error, and a parent that is not a directory. The
model does not stop the program.

gob itself cannot be seen. It is a `Codec` value: a total encoder and a
decoder for each of the three record types the engine stores. The laws the
engine relies on form a predicate, `InodeFormat.Lawful`, which the lemmas
take as a hypothesis. The first law: decoding any bytes that begin with the
encoding of x gives x. That holds because a gob message is self-delimiting,
so the decoder ignores what follows it. The law has to cover every
extension, because `copy` overwrites only a prefix of a block and leaves
the rest of the block after the encoding.
The second: every encoding holds a non-zero byte. A further hypothesis about
fitting in a block is made where needed: when an image is longer than 1024
bytes, `copy` cuts it short.

Layout of the project:

| file | module | contents |
|---|---|---|
| outcomes.dfy | Outcomes | Option, Result, the faults |
| disk.dfy | Disk | bytes, blocks, Go's `copy` into a block |
| inode_format.dfy | InodeFormat | Inode, FileEntry, SuperBlock, the codec and its laws, ReadInode |
| allocator.dfy | Allocator | findFreeInode, findFreeDataBlock, isBlockFree |
| datapath.dfy | DataPath | WriteFile and ReadFile as functions of the disk and the inode |
| roundtrip.dfy | WriteReadRoundTrip | what ReadFile returns after WriteFile on a fresh file |
| directory.dfy | Directory | initialisation, CreateFile, AddFileToDirectory, GetCorrectInode, Unlink, Open as functions of the disk |
| filesys.dfy | FileSys | class `FileSystem` over the two arrays, with one method per Go function, each proved against the functions above |

## Model

| member | source | states |
|---|---|---|
| Disk.CopyInto | FileSystem/GageRossFileSys.go:308 | `copy` into a block replaces the first min(len) bytes, keeps the rest of the block and drops what does not fit |
| Disk.Put | FileSystem/GageRossFileSys.go:267-269 | copying bytes into block b changes block b as CopyInto says, keeps the disk size and leaves every other block unchanged |
| Disk.CopyIntoZeroBlock | FileSystem/GageRossFileSys.go:308 | a chunk copied into an all-zero block leaves the chunk followed by zero padding |
| Disk.CopyIntoNotZero | FileSystem/GageRossFileSys.go:416-423 | a block that received bytes with a non-zero byte among them is no longer free |
| InodeFormat.PadName | FileSystem/GageRossFileSys.go:206-207 | copying a name into a `[12]byte` pads it with NULs, or cuts it, to 12 bytes |
| InodeFormat.InodeAt | FileSystem/GageRossFileSys.go:253-261 | ReadInode gives BadIndex off the disk, DecodeFailed when gob fails, and otherwise the decoded inode |
| InodeFormat.WriteThenReadInode | FileSystem/GageRossFileSys.go:253-279 | WriteInode then ReadInode of the same block gives back the whole inode, entries included, and the block is then in use |
| InodeFormat.WriteThenReadSuperBlock | FileSystem/GageRossFileSys.go:85-103 | the superblock written to a block decodes back unchanged and the block is in use |
| InodeFormat.WriteThenReadList | FileSystem/GageRossFileSys.go:323-339 | an indirect list written to a block decodes back unchanged and the block is in use |
| Allocator.FirstInvalid | FileSystem/GageRossFileSys.go:221-228 | the lowest slot that is not valid, with every earlier slot valid; -1 exactly when all slots are valid |
| Allocator.FirstFree | FileSystem/GageRossFileSys.go:404-414 | the lowest all-zero block, with every earlier block non-zero; -1 exactly when no block is all zero |
| Allocator.IsBlockFree | FileSystem/GageRossFileSys.go:416-423 | true exactly when every byte of the block is zero |
| Allocator.ClaimedBlockIsSkipped | FileSystem/GageRossFileSys.go:304-308 | after a chunk with a non-zero byte goes into the free block found, the next scan returns a later block or -1 |
| Allocator.ZeroChunkLeavesBlockFree | FileSystem/GageRossFileSys.go:304-308 | after an all-zero chunk goes into the free block found, the next scan returns the same block again |
| DataPath.SetFirstZero | FileSystem/GageRossFileSys.go:341-346 | the first zero entry of the indirect list becomes the new block; with no zero entry the list is unchanged and the block is dropped |
| DataPath.ChunkEnd | FileSystem/GageRossFileSys.go:298-302 | a chunk ends 1024 bytes after its start or at the end of the data, whichever comes first |
| DataPath.Chunk | FileSystem/GageRossFileSys.go:298-308 | every chunk is non-empty and at most one block long |
| DataPath.ChunksCount | FileSystem/GageRossFileSys.go:298 | WriteFile makes ceil(len(data) / 1024) passes |
| DataPath.AllocIndirect | FileSystem/GageRossFileSys.go:314-331 | an existing indirect block is kept with the disk unchanged; otherwise the first free block becomes the indirect block, and DiskFull when there is none |
| DataPath.AllocIndirectEffect | FileSystem/GageRossFileSys.go:314-331 | the allocation fails exactly when a block is needed and none is free; a new indirect block holds the image of an all-zero list, and no other block changes |
| DataPath.RecordIndirect | FileSystem/GageRossFileSys.go:333-353 | BadIndex for an indirect block off the disk, DecodeFailed when it does not decode; the inode is not changed |
| DataPath.RecordIndirectEffect | FileSystem/GageRossFileSys.go:333-353 | recording succeeds exactly when the indirect block is on the disk and decodes; the block then holds the list with the new block in its first zero slot, and no other block changes |
| DataPath.IndirectPath | FileSystem/GageRossFileSys.go:313-354 | the indirect branch fails only with DiskFull, BadIndex or DecodeFailed, changes only the inode's indirect block number, and keeps a non-zero indirect block |
| DataPath.IndirectPathEffect | FileSystem/GageRossFileSys.go:313-354 | it stops for a full disk exactly when it must allocate and cannot; when it completes, no block but the indirect block has changed |
| DataPath.WriteChunk | FileSystem/GageRossFileSys.go:304-354 | one pass fails only with DiskFull, BadIndex or DecodeFailed, and with DiskFull whenever no block is free; while fewer than 3 direct blocks are recorded it appends the free block to them |
| DataPath.WriteChunkEffect | FileSystem/GageRossFileSys.go:304-354 | one pass stops with DiskFull exactly when no block is free, or when the chunk takes the last free block and an indirect block must then be allocated; otherwise the chunk lands in the first free block unless the indirect image is then written over it, and no block but those two changes |
| DataPath.WriteChunks | FileSystem/GageRossFileSys.go:298-355 | WriteFile's loop fails only with DiskFull, BadIndex or DecodeFailed, and with no data left it changes nothing |
| DataPath.WriteChunkShape | FileSystem/GageRossFileSys.go:304-354 | one pass changes only the block pointers; it appends to the direct list while it is shorter than 3, and a non-zero indirect block is kept |
| DataPath.WriteChunksShape | FileSystem/GageRossFileSys.go:293-359 | a completed WriteFile changes only the block pointers (DataSize stays), extends the direct list to min(3, old length + passes), allocates no indirect block while the direct slots suffice and never replaces a non-zero one |
| DataPath.Gather | FileSystem/GageRossFileSys.go:368-375 | concatenating blocks gives 1024 bytes per block |
| DataPath.FileContents | FileSystem/GageRossFileSys.go:361-402 | ReadFile fails only with BadIndex or DecodeFailed |
| DataPath.FileContentsOk | FileSystem/GageRossFileSys.go:361-402 | ReadFile completes exactly when the direct blocks are on the disk and any indirect block is on the disk, decodes and lists only blocks on the disk; BadIndex for a direct block off the disk |
| DataPath.NonZero | FileSystem/GageRossFileSys.go:389-397 | the indirect entries ReadFile follows: no more entries than the list holds, none of them zero |
| DataPath.NonZeroEntries | FileSystem/GageRossFileSys.go:389-397 | every non-zero entry of the list is followed, and every entry followed comes from the list |
| DataPath.NonZeroSnoc | FileSystem/GageRossFileSys.go:389-397 | one more indirect entry adds its block to those followed exactly when it is non-zero |
| DataPath.ReadFileBlocksInOrder | FileSystem/GageRossFileSys.go:361-402 | ReadFile's result is 1024 bytes times the number of direct blocks plus non-zero indirect entries, and its k-th 1024-byte slice is the whole k-th of those blocks, in order |
| WriteReadRoundTrip.LaidContents | FileSystem/GageRossFileSys.go:361-402 | a file laid out by WriteFile reads back as at most four blocks, and as fewer exactly when a slot is left |
| WriteReadRoundTrip.FrameKeeps | FileSystem/GageRossFileSys.go:361-402 | a disk that agrees on block 0 and on every block an inode refers to keeps the layout and gives the same ReadFile result |
| WriteReadRoundTrip.PutFreeKeeps | FileSystem/GageRossFileSys.go:304-308 | for an inode laid out by WriteFile (block 0 in use, every recorded block in use, a decodable one-entry indirect list), writing a chunk with a non-zero byte to a free block disturbs nothing the inode refers to nor what ReadFile returns |
| WriteReadRoundTrip.AllocKeeps | FileSystem/GageRossFileSys.go:314-331 | under a lawful codec whose one-entry lists fit in a block, for an inode laid out by WriteFile (block 0 in use, every recorded block in use, a decodable one-entry indirect list) with the direct slots full, and a non-zero used block f it does not refer to: allocating the indirect block stops only for a full disk, gives a non-zero indirect block, and keeps the layout and what ReadFile returns |
| WriteReadRoundTrip.IndirectContentsEmpty | FileSystem/GageRossFileSys.go:378-397 | with the indirect entry still zero, ReadFile returns the direct blocks only |
| WriteReadRoundTrip.IndirectContentsFull | FileSystem/GageRossFileSys.go:378-397 | with the indirect entry set, ReadFile returns the direct blocks followed by the entry's block |
| WriteReadRoundTrip.RecordKeeps | FileSystem/GageRossFileSys.go:333-353 | under a lawful codec whose one-entry lists fit in a block, for an inode laid out by WriteFile (block 0 in use, every recorded block in use, a decodable one-entry indirect list) with an indirect block, and a non-zero used block it does not refer to: recording that block in the indirect list keeps the layout; ReadFile gains that block while the slot is free and is unchanged after |
| WriteReadRoundTrip.AllocThenRecord | FileSystem/GageRossFileSys.go:313-354 | under a lawful codec whose one-entry lists fit in a block, for an inode laid out by WriteFile (block 0 in use, every recorded block in use, a decodable one-entry indirect list) with the direct slots full, and a non-zero used block it does not refer to: in the indirect branch of one pass a full disk is the only fault, and ReadFile gains the chunk's block while a slot is left |
| WriteReadRoundTrip.StepDirect | FileSystem/GageRossFileSys.go:311-312 | for an inode laid out by WriteFile (block 0 in use, every recorded block in use, a decodable one-entry indirect list) with a direct slot left, a chunk with a non-zero byte put in a free block and recorded in that slot is what ReadFile gains, padded with zeros to a block |
| WriteReadRoundTrip.StepIndirect | FileSystem/GageRossFileSys.go:313-354 | under a lawful codec whose one-entry lists fit in a block and for an inode laid out by WriteFile (block 0 in use, every recorded block in use, a decodable one-entry indirect list) with the direct slots full: after a chunk with a non-zero byte is put in a free block, the indirect branch either stops with DiskFull or keeps the layout, and ReadFile gains the padded chunk while the indirect slot is free and nothing after |
| WriteReadRoundTrip.StepKeepsLayout | FileSystem/GageRossFileSys.go:298-354 | under a lawful codec whose one-entry lists fit in a block, for an inode laid out by WriteFile (block 0 in use, every recorded block in use, a decodable one-entry indirect list) and a chunk with a non-zero byte: one pass stops only for a full disk; otherwise ReadFile gains the padded chunk while a slot is left, and the indirect block exists once the direct slots are full |
| WriteReadRoundTrip.PadFromIsPadded | FileSystem/GageRossFileSys.go:298-308 | the padded chunks from some offset on make the rest of the data followed by zeros up to a whole block |
| WriteReadRoundTrip.WriteChunksKeepLayout | FileSystem/GageRossFileSys.go:293-359 | under a lawful codec whose one-entry lists fit in a block, for an inode laid out by WriteFile (block 0 in use, every recorded block in use, a decodable one-entry indirect list) and data whose every chunk from the offset holds a non-zero byte: WriteFile from any offset stops only for a full disk and otherwise adds the remaining data, padded and cut at four blocks, to what ReadFile returns |
| WriteReadRoundTrip.WriteFileThenReadFile | FileSystem/GageRossFileSys.go:293-402 | on a fresh inode, WriteFile stops only for a full disk; otherwise ReadFile returns the data padded with zeros to whole blocks, cut at four blocks; the direct list has min(3, ceil(len/1024)) entries and an indirect block exists exactly when the data exceeds 3072 bytes |
| Directory.SuperBlockAt | FileSystem/GageRossFileSys.go:95-103 | ReadSuperBlock fails exactly when block 0 does not decode and otherwise returns what it decodes to |
| Directory.RootDirectory | FileSystem/GageRossFileSys.go:67-78 | the root is inode 2, "root" padded to 12 bytes, valid, a directory, with no blocks, no entries, data size and read/write location 0, and the two given timestamps |
| Directory.ClearedInodes | FileSystem/GageRossFileSys.go:62-66 | after the reset loop all 80 table slots are the zero inode, none valid |
| Directory.WithSuperBlock | FileSystem/GageRossFileSys.go:85-93 | initializeSuperBlock touches only block 0 |
| Directory.Initialized | FileSystem/GageRossFileSys.go:58-83 | initialisation can fail only in ReadSuperBlock, on a decoding error, and otherwise changes only blocks 0 and 2 |
| Directory.InitializeThenRead | FileSystem/GageRossFileSys.go:58-103 | after initialisation block 0 reads back as the superblock {1, 2, 7} and block 2 as the root directory |
| Directory.FirstMatch | FileSystem/GageRossFileSys.go:152-153 | the first entry whose full 12-byte name equals the name asked for, with no earlier match; -1 exactly when none matches |
| Directory.Lookup | FileSystem/GageRossFileSys.go:151-158 | GetCorrectInode fails when the directory's image cannot be read, gives the zero inode on a miss and otherwise reads the inode of the first matching entry |
| Directory.ShortNameNeverFound | FileSystem/GageRossFileSys.go:153 | a name that is not exactly 12 bytes long is never found: the lookup fails or returns the zero inode |
| Directory.NewEntry | FileSystem/GageRossFileSys.go:240-244 | the new entry carries the given inode number and the name padded or cut to 12 bytes |
| Directory.AddEntry | FileSystem/GageRossFileSys.go:230-251 | AddFileToDirectory fails with NotADirectory exactly when the parent reads back and is not a directory, passes on a read failure, and otherwise changes only the parent's block |
| Directory.AddEntryThenRead | FileSystem/GageRossFileSys.go:230-251 | the parent read back afterwards is the parent read before with exactly one more entry at the end, holding the padded name and the inode number; earlier entries and all other fields are unchanged |
| Directory.AddEntryThenLookup | FileSystem/GageRossFileSys.go:230-251 | a file added under a 12-byte name the directory did not hold is found by GetCorrectInode through that directory |
| Directory.NewFile | FileSystem/GageRossFileSys.go:196-207 | the new inode is valid, not a directory, without blocks or entries, with data size 0 and inode number 0, and has the padded name |
| Directory.Create | FileSystem/GageRossFileSys.go:191-219 | CreateFile fails with InodeTableFull exactly when every table slot is valid and with BadIndex when the slot number is off the disk; otherwise it returns the new inode, the block numbered by the first invalid slot receives that inode's image, and no other block changes |
| Directory.CreateThenRead | FileSystem/GageRossFileSys.go:191-219 | the block CreateFile wrote reads back as the inode it returned |
| Directory.CreateAfterInitOverwritesSuperBlock | FileSystem/GageRossFileSys.go:193-210 | after initialisation the first free table slot is 0, so CreateFile writes its inode over the superblock in block 0 |
| Directory.UnlinkTarget | FileSystem/GageRossFileSys.go:282-287 | "root" resolves to inode 2, any other name to the number the search found |
| Directory.Unlinked | FileSystem/GageRossFileSys.go:281-291 | Unlink fails exactly when the target's image cannot be read, and otherwise changes only the target's block |
| Directory.UnlinkThenRead | FileSystem/GageRossFileSys.go:281-291 | the target read back afterwards equals the inode read before with only the valid flag cleared |
| Directory.UnlinkTwice | FileSystem/GageRossFileSys.go:281-291 | unlinking twice leaves the disk as unlinking once |
| Directory.Open | FileSystem/GageRossFileSys.go:118-138 | CREATE is CreateFile's result and only CREATE changes the disk; WRITE is GetCorrectInode; APPEND succeeds exactly when GetCorrectInode does, and returns the found inode with the cursor at its data size and the new time; any other mode succeeds exactly when the lookup and ReadFile(0) succeed and then returns the zero inode |
| Directory.AppendAfterCreateStartsAtZero | FileSystem/GageRossFileSys.go:125-129 | opening for APPEND an inode as CreateFile made it puts the cursor at 0, since the data size is never updated |
| FileSys.FillFirstZero | FileSystem/GageRossFileSys.go:341-346 | the loop over the indirect list computes SetFirstZero |
| FileSys.FileSystem.constructor | FileSystem/GageRossFileSys.go:29-56 | a fresh pair of arrays: 6144 all-zero blocks and 80 zero inodes |
| FileSys.FileSystem.InitializeSuperBlock | FileSystem/GageRossFileSys.go:85-93 | the disk becomes WithSuperBlock of the old disk |
| FileSys.FileSystem.ReadSuperBlock | FileSystem/GageRossFileSys.go:95-103 | returns SuperBlockAt of the disk |
| FileSys.FileSystem.InitializeFileSystem | FileSystem/GageRossFileSys.go:58-83 | on success the disk is Initialized of the old disk and the table is cleared; on a superblock decoding failure only the superblock was written |
| FileSys.FileSystem.ReadInode | FileSystem/GageRossFileSys.go:253-261 | returns InodeAt of the disk |
| FileSys.FileSystem.WriteInode | FileSystem/GageRossFileSys.go:271-279 | copies the inode's image into block b and changes nothing else; BadIndex off the disk |
| FileSys.FileSystem.ReadDataBlock | FileSystem/GageRossFileSys.go:263-265 | returns the whole block; BadIndex off the disk |
| FileSys.FileSystem.WriteDataBlock | FileSystem/GageRossFileSys.go:267-269 | copies the bytes into block b and changes nothing else; BadIndex off the disk |
| FileSys.FileSystem.FindFreeInode | FileSystem/GageRossFileSys.go:221-228 | returns FirstInvalid of the table and changes nothing |
| FileSys.FileSystem.FindFreeDataBlock | FileSystem/GageRossFileSys.go:404-414 | returns FirstFree of the disk and changes nothing |
| FileSys.FileSystem.CreateFile | FileSystem/GageRossFileSys.go:191-219 | the disk and the result are those of Create; the table is not changed |
| FileSys.FileSystem.AddFileToDirectory | FileSystem/GageRossFileSys.go:230-251 | the disk is that of AddEntry, unchanged on a fault |
| FileSys.FileSystem.GetCorrectInode | FileSystem/GageRossFileSys.go:151-158 | the scan returns Lookup of the disk |
| FileSys.FileSystem.Unlink | FileSystem/GageRossFileSys.go:281-291 | the disk is that of Unlinked, unchanged on a fault |
| FileSys.FileSystem.Open | FileSystem/GageRossFileSys.go:118-138 | the disk and the result are those of Directory.Open |
| FileSys.FileSystem.WriteFile | FileSystem/GageRossFileSys.go:293-359 | the disk is that of WriteChunks from the old disk and the old table entry; on completion only that table entry changes, to the working inode, and on a fault the table is unchanged |
| FileSys.FileSystem.WriteIndirect | FileSystem/GageRossFileSys.go:313-354 | the indirect branch of a pass leaves the disk and the working inode of DataPath.IndirectPath: the indirect block allocated and initialised when there is none, then the block recorded in its first zero slot; DiskFull, BadIndex or DecodeFailed otherwise |
| FileSys.FileSystem.ReadBlocks | FileSystem/GageRossFileSys.go:368-375 | the loop over the direct blocks gives their concatenation, or BadIndex if one is off the disk |
| FileSys.FileSystem.ReadListed | FileSystem/GageRossFileSys.go:389-397 | the loop over the indirect list gives the concatenation of the blocks of its non-zero entries, or BadIndex |
| FileSys.FileSystem.ReadFile | FileSystem/GageRossFileSys.go:361-402 | returns FileContents of the disk and the table entry; BadIndex for a slot off the table |
| FileSys.FileSystem.WriteThenReadFile | FileSystem/GageRossFileSys.go:293-402 | WriteFile on a fresh slot then ReadFile: the write can fail only for a full disk, and otherwise the read returns the padded data cut at four blocks |
| FileSys.FileSystem.ReadFileTwice | FileSystem/GageRossFileSys.go:361-402 | two ReadFile calls in a row return equal results |

## Left out

- `project1/simpleshell.go`, the interactive shell, is not part of this model. It only reads standard input and runs external commands.
- Internals of `encoding/gob` (`EncodeToBytes` and the encoders and decoders): a foreign library, replaced by the `Codec` value and the `Lawful` hypothesis.
- gob encoding errors (the `log.Fatal` after each `Encode`): the encoders are total, since encoding these plain structs does not fail.
- `time.Now()`: the timestamps of CreateFile, InitializeFileSystem and Open's APPEND mode are parameters.
- `fmt.Println` output everywhere, including the superblock printed by InitializeFileSystem and the data printed by ReadFile.
- `Read` and `Write` (FileSystem/GageRossFileSys.go:160-189) decode and encode an inode exactly as ReadInode and WriteInode do; they have no members of their own, FileSys.FileSystem.ReadInode and FileSys.FileSystem.WriteInode model them.
- `findInode` (FileSystem/GageRossFileSys.go:140-149): it decodes every disk block in turn and stops the program at the first block that is not an inode image. Unlink takes the inode number it would have resolved as a parameter, `found`.
- The zeroing loop for a fresh indirect list (FileSystem/GageRossFileSys.go:319-321) is the constant `DataPath.EMPTY_INDIRECT`, since `make` already yields zeros.
- Go's 64-bit `int` is modelled as an unbounded integer. No counter in the engine comes near the bound.
- FileSys.FileSystem.ReadDataBlock: returns a copy of the block, while the Go slice aliases the disk; callers that write through that slice are not modelled.
- WriteReadRoundTrip.WriteFileThenReadFile: proved only for data whose every chunk holds a non-zero byte and for a disk whose block 0 is in use. An all-zero chunk leaves its block free for the next chunk (Allocator.ZeroChunkLeavesBlockFree). An indirect block allocated at block 0 would read as "no indirect block".
- FileSys.FileSystem.WriteThenReadFile: the same conditions as WriteReadRoundTrip.WriteFileThenReadFile.
- The lemmas about reading back what was written assume the image fits in a block. Real gob images of large directories can exceed 1024 bytes; `copy` then cuts them short, and what gob makes of the cut image is not modelled.
