/** The storage engine as the program runs it: one object over the two
    process-wide arrays, the virtual disk and the in-memory inode table,
    whose operations update them in place. Each operation is proved against
    the function of the disk and the table that specifies it. */
module FileSys {
  import opened Outcomes
  import opened Disk
  import opened InodeFormat
  import opened Allocator
  import opened DataPath
  import opened Directory
  import opened WriteReadRoundTrip

  /** The loop of WriteFile over the decoded indirect list: the first zero
      entry becomes `block`, and the loop stops there. */
  method FillFirstZero(list: seq<int>, block: int) returns (r: seq<int>)
    ensures r == SetFirstZero(list, block)
  {
    r := list;
    for i := 0 to |list|
      invariant r == list
      invariant forall j :: 0 <= j < i ==> list[j] != 0
    {
      if list[i] == 0 {
        r := list[i := block];
        return;
      }
    }
  }

  /** One more entry of the indirect list: its block is appended when the
      entry is non-zero. The step of ReadListed's loop invariant. */
  lemma NonZeroStep(disk: seq<Block>, xs: seq<int>, x: int)
    requires InRange(NonZero(xs), |disk|)
    requires x != 0 ==> 0 <= x < |disk|
    ensures InRange(NonZero(xs + [x]), |disk|)
    ensures Gather(disk, NonZero(xs + [x])) == Gather(disk, NonZero(xs)) + (if x != 0 then disk[x] else [])
  {
    NonZeroSnoc(xs, x);
    if x != 0 {
      GatherSnoc(disk, NonZero(xs), x);
    } else {
      assert NonZero(xs) + [] == NonZero(xs);
    }
  }

  class FileSystem {
    /** VirtualDisk: 6144 blocks of 1024 bytes. */
    const disk: array<Block>
    /** Inodes: the 80 in-memory inode records. */
    const inodes: array<Inode>
    /** The gob encoders and decoders. */
    const codec: Codec

    ghost predicate Valid()
    {
      disk.Length == NUM_BLOCKS && inodes.Length == MAX_INODES
    }

    /** The arrays as a Go program starts with them: every byte zero and every
        inode the zero inode. */
    constructor (codec: Codec)
      ensures Valid() && this.codec == codec
      ensures fresh(disk) && fresh(inodes)
      ensures forall b :: 0 <= b < disk.Length ==> AllZero(disk[b])
      ensures inodes[..] == ClearedInodes()
    {
      this.codec := codec;
      disk := new Block[NUM_BLOCKS](_ => Zeros(BLOCK_SIZE));
      inodes := new Inode[MAX_INODES](_ => ZeroInode);
    }

    // -------------------------------------------------------------------
    // Initialisation

    /** initializeSuperBlock: the image of {1, 2, 7} copied into block 0. */
    method InitializeSuperBlock()
      requires Valid()
      modifies disk
      ensures disk[..] == WithSuperBlock(codec, old(disk[..]))
    {
      disk[SUPER_BLOCK] := CopyInto(disk[SUPER_BLOCK], codec.encodeSuper(INITIAL_SUPER_BLOCK));
    }

    /** ReadSuperBlock; a decoding error stops the program. */
    method ReadSuperBlock() returns (r: Result<SuperBlock>)
      requires Valid()
      ensures r == SuperBlockAt(codec, disk[..])
    {
      match codec.decodeSuper(disk[SUPER_BLOCK])
      case None => r := Aborted(DecodeFailed);
      case Some(s) => r := Ok(s);
    }

    /** InitializeFileSystem: the superblock, the reset of the inode table
        and the root directory's image in block 2. */
    method InitializeFileSystem(created: Timestamp, modified: Timestamp) returns (status: Result<()>)
      requires Valid()
      modifies disk, inodes
      ensures var spec := Initialized(codec, old(disk[..]), created, modified);
        && (spec.Ok? ==> status == Ok(()) && disk[..] == spec.value && inodes[..] == ClearedInodes())
        && (spec.Aborted? ==>
              && status == Aborted(spec.fault)
              && disk[..] == WithSuperBlock(codec, old(disk[..]))
              && inodes[..] == old(inodes[..]))
    {
      InitializeSuperBlock();
      var sblock := ReadSuperBlock();
      if sblock.Aborted? {
        return Aborted(sblock.fault);
      }
      ghost var d0 := disk[..];
      for i := 0 to inodes.Length
        invariant disk[..] == d0
        invariant forall j :: 0 <= j < i ==> inodes[j] == ZeroInode
      {
        inodes[i] := ZeroInode;
      }
      assert inodes[..] == ClearedInodes();
      status := WriteInode(ROOT_INODE, RootDirectory(created, modified));
    }

    // -------------------------------------------------------------------
    // Inode images and raw blocks

    /** ReadInode (and Read, which is the same): decode the image in block b. */
    method ReadInode(b: int) returns (r: Result<Inode>)
      ensures r == InodeAt(codec, disk[..], b)
    {
      if !(0 <= b < disk.Length) {
        return Aborted(BadIndex);
      }
      match codec.decodeInode(disk[b])
      case None => r := Aborted(DecodeFailed);
      case Some(x) => r := Ok(x);
    }

    /** WriteInode (and Write, which is the same): copy the image of x into
        block b; whatever does not fit is dropped. */
    method WriteInode(b: int, x: Inode) returns (status: Result<()>)
      modifies disk
      ensures 0 <= b < disk.Length ==> status == Ok(()) && disk[..] == Put(old(disk[..]), b, codec.encodeInode(x))
      ensures !(0 <= b < disk.Length) ==> status == Aborted(BadIndex) && disk[..] == old(disk[..])
    {
      if !(0 <= b < disk.Length) {
        return Aborted(BadIndex);
      }
      disk[b] := CopyInto(disk[b], codec.encodeInode(x));
      return Ok(());
    }

    /** ReadDataBlock: the whole block. */
    method ReadDataBlock(b: int) returns (r: Result<Block>)
      ensures 0 <= b < disk.Length ==> r == Ok(disk[b])
      ensures !(0 <= b < disk.Length) ==> r == Aborted(BadIndex)
    {
      if !(0 <= b < disk.Length) {
        return Aborted(BadIndex);
      }
      return Ok(disk[b]);
    }

    /** WriteDataBlock: copy the bytes into block b. */
    method WriteDataBlock(b: int, data: seq<byte>) returns (status: Result<()>)
      modifies disk
      ensures 0 <= b < disk.Length ==> status == Ok(()) && disk[..] == Put(old(disk[..]), b, data)
      ensures !(0 <= b < disk.Length) ==> status == Aborted(BadIndex) && disk[..] == old(disk[..])
    {
      if !(0 <= b < disk.Length) {
        return Aborted(BadIndex);
      }
      disk[b] := CopyInto(disk[b], data);
      return Ok(());
    }

    // -------------------------------------------------------------------
    // Allocation

    /** findFreeInode: the first slot of the table that is not valid. */
    method FindFreeInode() returns (r: int)
      ensures r == FirstInvalid(inodes[..])
    {
      for i := 0 to inodes.Length
        invariant forall j :: 0 <= j < i ==> inodes[j].isValid
      {
        if !inodes[i].isValid {
          assert inodes[..][i] == inodes[i];
          return i;
        }
      }
      return -1;
    }

    /** findFreeDataBlock: the first block whose bytes are all zero. */
    method FindFreeDataBlock() returns (r: int)
      ensures r == FirstFree(disk[..])
    {
      for i := 0 to disk.Length
        invariant forall j :: 0 <= j < i ==> !AllZero(disk[j])
      {
        var free := IsBlockFree(disk[i]);
        if free {
          assert disk[..][i] == disk[i];
          return i;
        }
      }
      return -1;
    }

    // -------------------------------------------------------------------
    // Files and directories

    /** CreateFile: the new inode's image goes to the block whose number
        findFreeInode returns; the file is not added to the parent. */
    method CreateFile(filename: seq<byte>, parentDirectory: Inode, created: Timestamp, modified: Timestamp)
      returns (r: Result<Inode>)
      modifies disk
      ensures var spec := Create(codec, old(disk[..]), inodes[..], filename, created, modified);
        && (spec.Ok? ==> r == Ok(spec.value.file) && disk[..] == spec.value.disk)
        && (spec.Aborted? ==> r == Aborted(spec.fault) && disk[..] == old(disk[..]))
    {
      var inodeNumber := FindFreeInode();
      var inode := NewFile(filename, created, modified);
      var st := WriteInode(inodeNumber, inode);
      if st.Aborted? {
        return Aborted(if inodeNumber < 0 then InodeTableFull else BadIndex);
      }
      return Ok(inode);
    }

    /** AddFileToDirectory: read the parent, refuse a non-directory, append
        the entry and write the parent back. */
    method AddFileToDirectory(filename: seq<byte>, inodeNumber: int, parentDirectoryInode: int)
      returns (status: Result<()>)
      modifies disk
      ensures var spec := AddEntry(codec, old(disk[..]), filename, inodeNumber, parentDirectoryInode);
        && (spec.Ok? ==> status == Ok(()) && disk[..] == spec.value)
        && (spec.Aborted? ==> status == Aborted(spec.fault) && disk[..] == old(disk[..]))
    {
      var parent := ReadInode(parentDirectoryInode);
      if parent.Aborted? {
        return Aborted(parent.fault);
      }
      var parentDirectory := parent.value;
      if !parentDirectory.isDirectory {
        return Aborted(NotADirectory);
      }
      var newFileEntry := NewEntry(filename, inodeNumber);
      parentDirectory := parentDirectory.(entries := parentDirectory.entries + [newFileEntry]);
      status := WriteInode(parentDirectoryInode, parentDirectory);
    }

    /** GetCorrectInode: scan the directory's entries for the first whose
        12-byte name equals filename. */
    method GetCorrectInode(filename: seq<byte>, directory: Inode) returns (r: Result<Inode>)
      ensures r == Lookup(codec, disk[..], filename, directory)
    {
      var dir := ReadInode(directory.inodeNumber);
      if dir.Aborted? {
        return Aborted(dir.fault);
      }
      var entries := dir.value.entries;
      for i := 0 to |entries|
        invariant forall j :: 0 <= j < i ==> entries[j].fileName != filename
      {
        if entries[i].fileName == filename {
          r := ReadInode(entries[i].inode);
          return;
        }
      }
      return Ok(ZeroInode);
    }

    /** Unlink: clear the valid flag of the image in block 2 for "root", in
        block `found` (the number the directory search resolved) otherwise. */
    method Unlink(fileNameOrInode: seq<byte>, parentDirectoryInode: int, found: int) returns (status: Result<()>)
      modifies disk
      ensures var spec := Unlinked(codec, old(disk[..]), fileNameOrInode, found);
        && (spec.Ok? ==> status == Ok(()) && disk[..] == spec.value)
        && (spec.Aborted? ==> status == Aborted(spec.fault) && disk[..] == old(disk[..]))
    {
      var inodeNumber := if fileNameOrInode == ROOT_NAME then ROOT_INODE else found;
      var read := ReadInode(inodeNumber);
      if read.Aborted? {
        return Aborted(read.fault);
      }
      var inode := read.value.(isValid := false);
      status := WriteInode(inodeNumber, inode);
    }

    /** Open in its four modes. */
    method Open(filename: seq<byte>, directory: Inode, mode: int,
                created: Timestamp, modified: Timestamp, now: Timestamp) returns (r: Result<Inode>)
      requires Valid()
      modifies disk
      ensures var spec := Directory.Open(codec, old(disk[..]), inodes[..], filename, directory, mode, created, modified, now);
        && (spec.Ok? ==> r == Ok(spec.value.file) && disk[..] == spec.value.disk)
        && (spec.Aborted? ==> r == Aborted(spec.fault) && disk[..] == old(disk[..]))
    {
      if mode == CREATE {
        r := CreateFile(filename, directory, created, modified);
        return;
      } else if mode == WRITE {
        r := GetCorrectInode(filename, directory);
        return;
      } else if mode == APPEND {
        var file := GetCorrectInode(filename, directory);
        if file.Aborted? {
          return file;
        }
        return Ok(file.value.(readWriteLoc := file.value.dataSize, lastModified := now));
      }
      var file := GetCorrectInode(filename, directory);
      if file.Aborted? {
        return file;
      }
      var contents := ReadFile(ZeroInode.inodeNumber);
      if contents.Aborted? {
        return Aborted(contents.fault);
      }
      return Ok(ZeroInode);
    }

    // -------------------------------------------------------------------
    // The data path

    /** WriteFile: one pass per 1024-byte chunk, then the working copy of the
        inode is stored back in the table. */
    method WriteFile(filename: seq<byte>, inodeNumber: int, data: seq<byte>) returns (status: Result<()>)
      modifies disk, inodes
      ensures !(0 <= inodeNumber < inodes.Length) ==>
        status == Aborted(BadIndex) && disk[..] == old(disk[..]) && inodes[..] == old(inodes[..])
      ensures 0 <= inodeNumber < inodes.Length ==>
        match WriteChunks(codec, old(disk[..]), old(inodes[inodeNumber]), data, 0)
        case Running(d, inode) =>
          status == Ok(()) && disk[..] == d && inodes[..] == old(inodes[..])[inodeNumber := inode]
        case Halted(d, e) =>
          status == Aborted(e) && disk[..] == d && inodes[..] == old(inodes[..])
    {
      if !(0 <= inodeNumber < inodes.Length) {
        return Aborted(BadIndex);
      }
      var inode := inodes[inodeNumber];
      var start := 0;
      while start < |data|
        invariant inodes[..] == old(inodes[..])
        invariant WriteChunks(codec, disk[..], inode, data, start)
               == WriteChunks(codec, old(disk[..]), old(inodes[inodeNumber]), data, 0)
        decreases |data| - start
      {
        ghost var before := disk[..];
        ghost var inode0 := inode;
        var end := start + BLOCK_SIZE;
        if end > |data| {
          end := |data|;
        }
        assert data[start..end] == Chunk(data, start);
        var freeBlock := FindFreeDataBlock();
        if freeBlock < 0 {
          return Aborted(DiskFull);
        }
        disk[freeBlock] := CopyInto(disk[freeBlock], data[start..end]);
        assert disk[..] == Put(before, freeBlock, data[start..end]);
        if |inode.dataBlocks| < MAX_DIRECT_BLOCKS {
          inode := inode.(dataBlocks := inode.dataBlocks + [freeBlock]);
        } else {
          var st;
          st, inode := WriteIndirect(inode, freeBlock);
          if st.Aborted? {
            return st;
          }
        }
        assert WriteChunk(codec, before, inode0, Chunk(data, start)) == Running(disk[..], inode);
        start := start + BLOCK_SIZE;
      }
      inodes[inodeNumber] := inode;
      status := Ok(());
    }

    /** The branch of WriteFile's loop taken once the direct slots are full:
        allocate and initialise the indirect block if there is none, then put
        the chunk's block in the first zero slot of its list. */
    method WriteIndirect(inode: Inode, freeBlock: int) returns (status: Result<()>, inode': Inode)
      modifies disk
      ensures var spec := IndirectPath(codec, old(disk[..]), inode, freeBlock);
        && disk[..] == spec.disk
        && (spec.Running? ==> status == Ok(()) && inode' == spec.inode)
        && (spec.Halted? ==> status == Aborted(spec.fault))
    {
      ghost var d1 := disk[..];
      inode' := inode;
      if inode'.indirectBlock == 0 {
        var g := FindFreeDataBlock();
        if g < 0 {
          return Aborted(DiskFull), inode';
        }
        inode' := inode'.(indirectBlock := g);
        disk[g] := CopyInto(disk[g], codec.encodeList(EMPTY_INDIRECT));
        assert disk[..] == Put(d1, g, codec.encodeList(EMPTY_INDIRECT));
      }
      assert AllocIndirect(codec, d1, inode) == Running(disk[..], inode');
      ghost var d2 := disk[..];
      var ib := inode'.indirectBlock;
      if !(0 <= ib < disk.Length) {
        return Aborted(BadIndex), inode';
      }
      match codec.decodeList(disk[ib])
      case None =>
        return Aborted(DecodeFailed), inode';
      case Some(list) =>
        var updated := FillFirstZero(list, freeBlock);
        disk[ib] := CopyInto(disk[ib], codec.encodeList(updated));
        assert disk[..] == Put(d2, ib, codec.encodeList(updated));
        return Ok(()), inode';
    }

    /** ReadFile's loop over the direct blocks: the blocks appended in order;
        a block number off the disk stops the program. */
    method ReadBlocks(blocks: seq<int>) returns (r: Result<seq<byte>>)
      ensures InRange(blocks, disk.Length) ==> r == Ok(Gather(disk[..], blocks))
      ensures !InRange(blocks, disk.Length) ==> r == Aborted(BadIndex)
    {
      var data: seq<byte> := [];
      for i := 0 to |blocks|
        invariant InRange(blocks[..i], disk.Length)
        invariant data == Gather(disk[..], blocks[..i])
      {
        var blockNumber := blocks[i];
        if !(0 <= blockNumber < disk.Length) {
          return Aborted(BadIndex);
        }
        assert blocks[..i + 1][..i] == blocks[..i];
        data := data + disk[blockNumber];
      }
      assert blocks[..|blocks|] == blocks;
      return Ok(data);
    }

    /** ReadFile's loop over the indirect list: the blocks of the non-zero
        entries appended in order. */
    method ReadListed(list: seq<int>) returns (r: Result<seq<byte>>)
      ensures InRange(NonZero(list), disk.Length) ==> r == Ok(Gather(disk[..], NonZero(list)))
      ensures !InRange(NonZero(list), disk.Length) ==> r == Aborted(BadIndex)
    {
      var data: seq<byte> := [];
      for i := 0 to |list|
        invariant InRange(NonZero(list[..i]), disk.Length)
        invariant data == Gather(disk[..], NonZero(list[..i]))
      {
        var blockNumber := list[i];
        if blockNumber != 0 && !(0 <= blockNumber < disk.Length) {
          NonZeroEntries(list);
          assert blockNumber in NonZero(list);
          return Aborted(BadIndex);
        }
        assert list[..i + 1] == list[..i] + [blockNumber];
        NonZeroStep(disk[..], list[..i], blockNumber);
        if blockNumber != 0 {
          data := data + disk[blockNumber];
        }
      }
      assert list[..|list|] == list;
      return Ok(data);
    }

    /** ReadFile: the direct blocks in order, then the non-zero entries of the
        indirect list. */
    method ReadFile(inodeNumber: int) returns (r: Result<seq<byte>>)
      ensures !(0 <= inodeNumber < inodes.Length) ==> r == Aborted(BadIndex)
      ensures 0 <= inodeNumber < inodes.Length ==> r == FileContents(codec, disk[..], inodes[inodeNumber])
    {
      if !(0 <= inodeNumber < inodes.Length) {
        return Aborted(BadIndex);
      }
      var inode := inodes[inodeNumber];
      var direct := ReadBlocks(inode.dataBlocks);
      if direct.Aborted? || inode.indirectBlock == 0 {
        return direct;
      }
      var ib := inode.indirectBlock;
      if !(0 <= ib < disk.Length) {
        return Aborted(BadIndex);
      }
      match codec.decodeList(disk[ib])
      case None =>
        return Aborted(DecodeFailed);
      case Some(list) =>
        var indirect := ReadListed(list);
        if indirect.Aborted? {
          return indirect;
        }
        return Ok(direct.value + indirect.value);
    }

    /** WriteFile on a fresh table slot followed by ReadFile: under the
        conditions of WriteReadRoundTrip.WriteFileThenReadFile the write stops
        only for a full disk, and otherwise the read returns the data padded
        to whole blocks, cut at four blocks. */
    method WriteThenReadFile(filename: seq<byte>, inodeNumber: int, data: seq<byte>)
      returns (status: Result<()>, contents: Result<seq<byte>>)
      requires Lawful(codec) && ListsFit(codec, disk.Length) && InUse(disk[..], 0)
      requires 0 <= inodeNumber < inodes.Length
      requires inodes[inodeNumber].dataBlocks == [] && inodes[inodeNumber].indirectBlock == 0
      requires NoZeroChunks(data, 0)
      modifies disk, inodes
      ensures status.Aborted? ==> status.fault == DiskFull
      ensures status.Ok? ==> contents == Ok(Cap(data + Zeros(PadLength(|data|))))
    {
      WriteFileThenReadFile(codec, disk[..], inodes[inodeNumber], data);
      status := WriteFile(filename, inodeNumber, data);
      contents := ReadFile(inodeNumber);
    }

    /** ReadFile changes nothing, so two calls in a row agree. */
    method ReadFileTwice(inodeNumber: int) returns (first: Result<seq<byte>>, second: Result<seq<byte>>)
      ensures first == second
    {
      first := ReadFile(inodeNumber);
      second := ReadFile(inodeNumber);
    }
  }
}
