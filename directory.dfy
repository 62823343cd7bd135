/** The operations on the inode images kept in disk blocks: the superblock
    and the root directory written at initialisation, file creation, the
    directory entry list, lookup by name, unlinking and Open.

    These images are a separate store from the in-memory `Inodes` table of
    the data path: nothing here reads or writes that table except
    findFreeInode, which CreateFile consults, and ReadFile(0), which Open
    issues in its read mode. */
module Directory {
  import opened Outcomes
  import opened Disk
  import opened InodeFormat
  import opened Allocator
  import opened DataPath

  /** The block the superblock is kept in. */
  const SUPER_BLOCK: nat := 0

  /** The inode number, and block, of the root directory. */
  const ROOT_INODE: nat := 2

  const INITIAL_SUPER_BLOCK: SuperBlock := SuperBlock(1, 2, 7)

  /** The modes of Open. */
  const CREATE: int := 0
  const READ: int := 1
  const APPEND: int := 2
  const WRITE: int := 3

  // ---------------------------------------------------------------------
  // Initialisation

  /** ReadSuperBlock: gob-decode block 0. */
  function SuperBlockAt(c: Codec, disk: seq<Block>): (r: Result<SuperBlock>)
    requires |disk| > SUPER_BLOCK
    ensures c.decodeSuper(disk[SUPER_BLOCK]).None? <==> r == Aborted(DecodeFailed)
    ensures c.decodeSuper(disk[SUPER_BLOCK]).Some? <==> r.Ok?
    ensures r.Ok? ==> Some(r.value) == c.decodeSuper(disk[SUPER_BLOCK])
  {
    match c.decodeSuper(disk[SUPER_BLOCK])
    case None => Aborted(DecodeFailed)
    case Some(s) => Ok(s)
  }

  /** The root directory InitializeFileSystem writes as inode 2. */
  function RootDirectory(created: Timestamp, modified: Timestamp): (root: Inode)
    ensures root.inodeNumber == ROOT_INODE && root.fileName == ROOT_NAME + Zeros(NAME_LEN - |ROOT_NAME|)
    ensures root.isValid && root.isDirectory
    ensures root.dataBlocks == [] && root.indirectBlock == 0 && root.entries == []
    ensures root.dataSize == 0 && root.readWriteLoc == 0
    ensures root.createdTime == created && root.lastModified == modified
  {
    ZeroInode.(inodeNumber := ROOT_INODE, fileName := PadName(ROOT_NAME), isValid := true,
               isDirectory := true, createdTime := created, lastModified := modified)
  }

  /** The inode table after InitializeFileSystem's reset loop: every slot is
      `Inode{IsValid: false}`, which is the zero inode. */
  function ClearedInodes(): (t: seq<Inode>)
    ensures |t| == MAX_INODES
    ensures forall i :: 0 <= i < |t| ==> t[i] == ZeroInode && !t[i].isValid
  {
    seq(MAX_INODES, _ => ZeroInode)
  }

  /** The disk after initializeSuperBlock. */
  function WithSuperBlock(c: Codec, disk: seq<Block>): (d: seq<Block>)
    requires |disk| == NUM_BLOCKS
    ensures |d| == |disk|
    ensures forall j :: 0 <= j < |disk| && j != SUPER_BLOCK ==> d[j] == disk[j]
  {
    Put(disk, SUPER_BLOCK, c.encodeSuper(INITIAL_SUPER_BLOCK))
  }

  /** The disk after InitializeFileSystem: the superblock in block 0 and the
      root directory's image in block 2, or the fault of ReadSuperBlock.
      Every other block keeps what it held: nothing is cleared. */
  function Initialized(c: Codec, disk: seq<Block>, created: Timestamp, modified: Timestamp): (r: Result<seq<Block>>)
    requires |disk| == NUM_BLOCKS
    ensures r.Aborted? ==> r.fault == DecodeFailed
    ensures r.Ok? ==> |r.value| == |disk|
    ensures r.Ok? ==> forall j :: 0 <= j < |disk| && j != SUPER_BLOCK && j != ROOT_INODE ==> r.value[j] == disk[j]
  {
    var d0 := WithSuperBlock(c, disk);
    match SuperBlockAt(c, d0)
    case Aborted(e) => Aborted(e)
    case Ok(_) => Ok(Put(d0, ROOT_INODE, c.encodeInode(RootDirectory(created, modified))))
  }

  /** Under a lawful codec whose images fit, initialisation succeeds and
      reads back: the superblock {1, 2, 7} from block 0 and the root
      directory, valid, a directory, with no entries, from block 2. */
  lemma InitializeThenRead(c: Codec, disk: seq<Block>, created: Timestamp, modified: Timestamp)
    requires Lawful(c) && |disk| == NUM_BLOCKS
    requires |c.encodeSuper(INITIAL_SUPER_BLOCK)| <= BLOCK_SIZE
    requires |c.encodeInode(RootDirectory(created, modified))| <= BLOCK_SIZE
    ensures var r := Initialized(c, disk, created, modified);
      && r.Ok?
      && SuperBlockAt(c, r.value) == Ok(SuperBlock(1, 2, 7))
      && InodeAt(c, r.value, ROOT_INODE) == Ok(RootDirectory(created, modified))
      && !AllZero(r.value[SUPER_BLOCK]) && !AllZero(r.value[ROOT_INODE])
  {
    var d0 := WithSuperBlock(c, disk);
    WriteThenReadSuperBlock(c, disk, SUPER_BLOCK, INITIAL_SUPER_BLOCK);
    var root := RootDirectory(created, modified);
    WriteThenReadInode(c, d0, ROOT_INODE, root);
    var d := Put(d0, ROOT_INODE, c.encodeInode(root));
    assert d[SUPER_BLOCK] == d0[SUPER_BLOCK];
  }

  // ---------------------------------------------------------------------
  // Directory entries and lookup

  /** The entry GetCorrectInode stops at: the first whose whole 12-byte name
      field equals the name asked for, or -1. */
  function FirstMatch(entries: seq<FileEntry>, filename: seq<byte>): (r: int)
    ensures -1 <= r < |entries|
    ensures r >= 0 ==> entries[r].fileName == filename && forall j :: 0 <= j < r ==> entries[j].fileName != filename
    ensures r == -1 <==> forall j :: 0 <= j < |entries| ==> entries[j].fileName != filename
  {
    if entries == [] then -1
    else if entries[0].fileName == filename then 0
    else
      var r := FirstMatch(entries[1..], filename);
      if r < 0 then -1 else r + 1
  }

  /** GetCorrectInode: read the directory's image from the block named by its
      inode number, find the first entry with that name and read that entry's
      inode; on a miss, the zero inode. */
  function Lookup(c: Codec, disk: seq<Block>, filename: seq<byte>, directory: Inode): (r: Result<Inode>)
    ensures InodeAt(c, disk, directory.inodeNumber).Aborted? ==> r == InodeAt(c, disk, directory.inodeNumber)
    ensures InodeAt(c, disk, directory.inodeNumber).Ok? ==>
      var entries := InodeAt(c, disk, directory.inodeNumber).value.entries;
      var k := FirstMatch(entries, filename);
      (k == -1 ==> r == Ok(ZeroInode)) && (k >= 0 ==> r == InodeAt(c, disk, entries[k].inode))
  {
    match InodeAt(c, disk, directory.inodeNumber)
    case Aborted(e) => Aborted(e)
    case Ok(dir) =>
      var k := FirstMatch(dir.entries, filename);
      if k < 0 then Ok(ZeroInode) else InodeAt(c, disk, dir.entries[k].inode)
  }

  /** Entry names are 12 bytes long, so a name of any other length is never
      found: the lookup either fails on the directory itself or returns the
      zero inode, whatever the directory holds. */
  lemma ShortNameNeverFound(c: Codec, disk: seq<Block>, filename: seq<byte>, directory: Inode)
    requires |filename| != NAME_LEN
    ensures var r := Lookup(c, disk, filename, directory);
      r.Aborted? || r == Ok(ZeroInode)
  {
    var d := InodeAt(c, disk, directory.inodeNumber);
    if d.Ok? {
      assert forall j :: 0 <= j < |d.value.entries| ==> |d.value.entries[j].fileName| != |filename|;
    }
  }

  /** The entry AddFileToDirectory appends. */
  function NewEntry(filename: seq<byte>, inodeNumber: int): (e: FileEntry)
    ensures e.inode == inodeNumber
    ensures |filename| <= NAME_LEN ==> e.fileName == filename + Zeros(NAME_LEN - |filename|)
    ensures |filename| > NAME_LEN ==> e.fileName == filename[..NAME_LEN]
  {
    FileEntry(PadName(filename), inodeNumber)
  }

  /** AddFileToDirectory: read the parent's image from block `parent`, refuse
      a non-directory, append the entry and write the image back to the same
      block. */
  function AddEntry(c: Codec, disk: seq<Block>, filename: seq<byte>, inodeNumber: int, parent: int): (r: Result<seq<Block>>)
    ensures r == Aborted(NotADirectory) <==> InodeAt(c, disk, parent).Ok? && !InodeAt(c, disk, parent).value.isDirectory
    ensures r.Ok? <==> InodeAt(c, disk, parent).Ok? && InodeAt(c, disk, parent).value.isDirectory
    ensures InodeAt(c, disk, parent).Aborted? ==> r == Aborted(InodeAt(c, disk, parent).fault)
    ensures r.Ok? ==> |r.value| == |disk| && forall j :: 0 <= j < |disk| && j != parent ==> r.value[j] == disk[j]
  {
    match InodeAt(c, disk, parent)
    case Aborted(e) => Aborted(e)
    case Ok(dir) =>
      if !dir.isDirectory then Aborted(NotADirectory)
      else Ok(Put(disk, parent, c.encodeInode(dir.(entries := dir.entries + [NewEntry(filename, inodeNumber)]))))
  }

  /** The parent read back after AddFileToDirectory is the parent read before
      with exactly one more entry, at the end: the name padded or cut to 12
      bytes and the given inode number; the earlier entries keep their order
      and every other field is unchanged. */
  lemma AddEntryThenRead(c: Codec, disk: seq<Block>, filename: seq<byte>, inodeNumber: int, parent: int, dir: Inode)
    requires Lawful(c)
    requires InodeAt(c, disk, parent) == Ok(dir) && dir.isDirectory
    requires |c.encodeInode(dir.(entries := dir.entries + [NewEntry(filename, inodeNumber)]))| <= BLOCK_SIZE
    ensures var r := AddEntry(c, disk, filename, inodeNumber, parent);
      && r.Ok?
      && InodeAt(c, r.value, parent).Ok?
      && var dir' := InodeAt(c, r.value, parent).value;
         && dir' == dir.(entries := dir'.entries)
         && |dir'.entries| == |dir.entries| + 1
         && dir'.entries[..|dir.entries|] == dir.entries
         && dir'.entries[|dir.entries|].inode == inodeNumber
         && dir'.entries[|dir.entries|].fileName == PadName(filename)
  {
    var dir' := dir.(entries := dir.entries + [NewEntry(filename, inodeNumber)]);
    WriteThenReadInode(c, disk, parent, dir');
    assert dir'.entries[..|dir.entries|] == dir.entries;
  }

  /** A file added under a 12-byte name the directory did not hold is then
      found by GetCorrectInode through that directory, and the lookup reads
      the inode image of the block it was added with. */
  lemma AddEntryThenLookup(c: Codec, disk: seq<Block>, filename: seq<byte>, inodeNumber: int, directory: Inode, dir: Inode)
    requires Lawful(c)
    requires InodeAt(c, disk, directory.inodeNumber) == Ok(dir) && dir.isDirectory
    requires |filename| == NAME_LEN && FirstMatch(dir.entries, filename) == -1
    requires |c.encodeInode(dir.(entries := dir.entries + [NewEntry(filename, inodeNumber)]))| <= BLOCK_SIZE
    requires inodeNumber != directory.inodeNumber
    ensures var r := AddEntry(c, disk, filename, inodeNumber, directory.inodeNumber);
      r.Ok? && Lookup(c, r.value, filename, directory) == InodeAt(c, disk, inodeNumber)
  {
    var p := directory.inodeNumber;
    AddEntryThenRead(c, disk, filename, inodeNumber, p, dir);
    var d := AddEntry(c, disk, filename, inodeNumber, p).value;
    var entries := InodeAt(c, d, p).value.entries;
    assert entries[..|dir.entries|] == dir.entries;
    assert forall j :: 0 <= j < |dir.entries| ==> entries[j] == dir.entries[j];
    assert FirstMatch(entries, filename) == |dir.entries|;
    assert 0 <= inodeNumber < |disk| ==> d[inodeNumber] == disk[inodeNumber];
  }

  // ---------------------------------------------------------------------
  // CreateFile

  /** The inode CreateFile builds: valid, not a directory, no blocks, no
      entries, the name padded or cut to 12 bytes, and inode number 0 since
      the number it finds is never stored in it. */
  function NewFile(filename: seq<byte>, created: Timestamp, modified: Timestamp): (x: Inode)
    ensures x.inodeNumber == 0 && x.fileName == PadName(filename)
    ensures x.isValid && !x.isDirectory
    ensures x.dataBlocks == [] && x.indirectBlock == 0 && x.dataSize == 0 && x.entries == []
    ensures x.createdTime == created && x.lastModified == modified
  {
    ZeroInode.(fileName := PadName(filename), isValid := true, createdTime := created, lastModified := modified)
  }

  /** What CreateFile leaves: the disk with the new inode's image in the
      block whose number findFreeInode returned, and the inode it returns. */
  datatype Created = Created(disk: seq<Block>, file: Inode)

  /** CreateFile: findFreeInode picks the slot of the in-memory table and the
      image is written to the block of that number (-1 when the table is full,
      which is not a block). The parent is not used: the file is not added to
      any directory. */
  function Create(c: Codec, disk: seq<Block>, inodes: seq<Inode>, filename: seq<byte>,
                  created: Timestamp, modified: Timestamp): (r: Result<Created>)
    ensures FirstInvalid(inodes) == -1 <==> r == Aborted(InodeTableFull)
    ensures r.Ok? <==> 0 <= FirstInvalid(inodes) < |disk|
    ensures r.Ok? ==> r.value.file == NewFile(filename, created, modified)
    ensures r.Ok? ==> |r.value.disk| == |disk|
    ensures FirstInvalid(inodes) >= |disk| ==> r == Aborted(BadIndex)
    ensures r.Ok? ==> r.value.disk[FirstInvalid(inodes)] == CopyInto(disk[FirstInvalid(inodes)], c.encodeInode(r.value.file))
    ensures r.Ok? ==> forall j :: 0 <= j < |disk| && j != FirstInvalid(inodes) ==> r.value.disk[j] == disk[j]
  {
    var i := FirstInvalid(inodes);
    var file := NewFile(filename, created, modified);
    if i < 0 then Aborted(InodeTableFull)
    else if i >= |disk| then Aborted(BadIndex)
    else Ok(Created(Put(disk, i, c.encodeInode(file)), file))
  }

  /** The block CreateFile wrote reads back as the inode it returned. */
  lemma CreateThenRead(c: Codec, disk: seq<Block>, inodes: seq<Inode>, filename: seq<byte>,
                       created: Timestamp, modified: Timestamp)
    requires Lawful(c) && |inodes| <= |disk|
    requires FirstInvalid(inodes) >= 0
    requires |c.encodeInode(NewFile(filename, created, modified))| <= BLOCK_SIZE
    ensures var r := Create(c, disk, inodes, filename, created, modified);
      r.Ok? && InodeAt(c, r.value.disk, FirstInvalid(inodes)) == Ok(r.value.file)
  {
    WriteThenReadInode(c, disk, FirstInvalid(inodes), NewFile(filename, created, modified));
  }

  /** Right after initialisation every table slot is free, so CreateFile
      writes its inode to block 0 over the superblock; and since it marks no
      slot valid, every later CreateFile writes to block 0 as well. */
  lemma CreateAfterInitOverwritesSuperBlock(c: Codec, disk: seq<Block>, filename: seq<byte>,
                                            created: Timestamp, modified: Timestamp)
    requires Lawful(c) && |disk| == NUM_BLOCKS
    requires |c.encodeInode(NewFile(filename, created, modified))| <= BLOCK_SIZE
    ensures FirstInvalid(ClearedInodes()) == SUPER_BLOCK
    ensures var r := Create(c, disk, ClearedInodes(), filename, created, modified);
      && r.Ok?
      && InodeAt(c, r.value.disk, SUPER_BLOCK) == Ok(NewFile(filename, created, modified))
  {
    assert !ClearedInodes()[0].isValid;
    CreateThenRead(c, disk, ClearedInodes(), filename, created, modified);
  }

  // ---------------------------------------------------------------------
  // Unlink

  /** The block Unlink works on: 2 for the name "root", otherwise the number
      the directory search resolved. */
  function UnlinkTarget(name: seq<byte>, found: int): (n: int)
    ensures name == ROOT_NAME ==> n == ROOT_INODE
    ensures name != ROOT_NAME ==> n == found
  {
    if name == ROOT_NAME then ROOT_INODE else found
  }

  /** Unlink: read the target's image, clear its valid flag and write it back
      to the same block. */
  function Unlinked(c: Codec, disk: seq<Block>, name: seq<byte>, found: int): (r: Result<seq<Block>>)
    ensures var n := UnlinkTarget(name, found);
      && (InodeAt(c, disk, n).Aborted? ==> r == Aborted(InodeAt(c, disk, n).fault))
      && (r.Ok? <==> InodeAt(c, disk, n).Ok?)
      && (r.Ok? ==> |r.value| == |disk| && forall j :: 0 <= j < |disk| && j != n ==> r.value[j] == disk[j])
  {
    var n := UnlinkTarget(name, found);
    match InodeAt(c, disk, n)
    case Aborted(e) => Aborted(e)
    case Ok(x) => Ok(Put(disk, n, c.encodeInode(x.(isValid := false))))
  }

  /** The image read back after Unlink is the one read before with only the
      valid flag cleared. */
  lemma UnlinkThenRead(c: Codec, disk: seq<Block>, name: seq<byte>, found: int, x: Inode)
    requires Lawful(c)
    requires InodeAt(c, disk, UnlinkTarget(name, found)) == Ok(x)
    requires |c.encodeInode(x.(isValid := false))| <= BLOCK_SIZE
    ensures var r := Unlinked(c, disk, name, found);
      && r.Ok?
      && InodeAt(c, r.value, UnlinkTarget(name, found)).Ok?
      && var y := InodeAt(c, r.value, UnlinkTarget(name, found)).value;
         !y.isValid && y == x.(isValid := y.isValid)
  {
    WriteThenReadInode(c, disk, UnlinkTarget(name, found), x.(isValid := false));
  }

  /** Unlinking twice leaves the disk as unlinking once. */
  lemma UnlinkTwice(c: Codec, disk: seq<Block>, name: seq<byte>, found: int, x: Inode)
    requires Lawful(c)
    requires InodeAt(c, disk, UnlinkTarget(name, found)) == Ok(x)
    requires |c.encodeInode(x.(isValid := false))| <= BLOCK_SIZE
    ensures var r := Unlinked(c, disk, name, found);
      r.Ok? && Unlinked(c, r.value, name, found) == r
  {
    var n := UnlinkTarget(name, found);
    UnlinkThenRead(c, disk, name, found, x);
    var d := Unlinked(c, disk, name, found).value;
    var img := c.encodeInode(x.(isValid := false));
    assert x.(isValid := false).(isValid := false) == x.(isValid := false);
    CopyIntoTwice(disk[n], img);
    assert Put(d, n, img) == d;
  }

  // ---------------------------------------------------------------------
  // Open

  /** Open's result: the disk (changed only by CREATE) and the inode it
      returns. */
  datatype Opened = Opened(disk: seq<Block>, file: Inode)

  /** Open in each mode. CREATE is CreateFile; WRITE is GetCorrectInode;
      APPEND is GetCorrectInode with the read/write location moved to the
      recorded data size and the modification time set; any other mode looks
      the name up, reads the file in table slot 0 and discards both, and
      returns the zero inode. */
  function Open(c: Codec, disk: seq<Block>, inodes: seq<Inode>, filename: seq<byte>, directory: Inode,
                mode: int, created: Timestamp, modified: Timestamp, now: Timestamp): (r: Result<Opened>)
    requires |inodes| == MAX_INODES
    ensures mode == CREATE ==> r == match Create(c, disk, inodes, filename, created, modified)
      case Aborted(e) => Aborted(e)
      case Ok(m) => Ok(Opened(m.disk, m.file))
    ensures mode != CREATE && r.Ok? ==> r.value.disk == disk
    ensures mode == WRITE ==> r == match Lookup(c, disk, filename, directory)
      case Aborted(e) => Aborted(e)
      case Ok(x) => Ok(Opened(disk, x))
    ensures mode == APPEND ==> (r.Ok? <==> Lookup(c, disk, filename, directory).Ok?)
    ensures mode == APPEND && r.Ok? ==>
      && Lookup(c, disk, filename, directory).Ok?
      && var x := Lookup(c, disk, filename, directory).value;
         r.value.file == x.(readWriteLoc := x.dataSize, lastModified := now)
    ensures mode !in {CREATE, WRITE, APPEND} ==>
      (r.Ok? <==> Lookup(c, disk, filename, directory).Ok? && FileContents(c, disk, inodes[0]).Ok?)
    ensures mode !in {CREATE, WRITE, APPEND} && r.Ok? ==> r.value.file == ZeroInode
  {
    if mode == CREATE then
      match Create(c, disk, inodes, filename, created, modified)
      case Aborted(e) => Aborted(e)
      case Ok(made) => Ok(Opened(made.disk, made.file))
    else if mode == WRITE then
      match Lookup(c, disk, filename, directory)
      case Aborted(e) => Aborted(e)
      case Ok(x) => Ok(Opened(disk, x))
    else if mode == APPEND then
      match Lookup(c, disk, filename, directory)
      case Aborted(e) => Aborted(e)
      case Ok(x) => Ok(Opened(disk, x.(readWriteLoc := x.dataSize, lastModified := now)))
    else
      match Lookup(c, disk, filename, directory)
      case Aborted(e) => Aborted(e)
      case Ok(_) =>
        match FileContents(c, disk, inodes[0])
        case Aborted(e) => Aborted(e)
        case Ok(_) => Ok(Opened(disk, ZeroInode))
  }

  /** Since nothing ever updates the recorded data size, APPEND on a file
      found through the directory puts the read/write location at that image's
      data size, which is 0 for every inode CreateFile writes. */
  lemma AppendAfterCreateStartsAtZero(c: Codec, disk: seq<Block>, inodes: seq<Inode>, filename: seq<byte>,
                                      directory: Inode, created: Timestamp, modified: Timestamp, now: Timestamp)
    requires |inodes| == MAX_INODES
    requires Lookup(c, disk, filename, directory) == Ok(NewFile(filename, created, modified))
    ensures var r := Open(c, disk, inodes, filename, directory, APPEND, created, modified, now);
      r.Ok? && r.value.file.readWriteLoc == 0 && r.value.file.lastModified == now && r.value.file.isValid
  {
  }
}
