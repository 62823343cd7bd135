/** The records the engine keeps on the disk (Inode, FileEntry, SuperBlock)
    and the serialisation that `encoding/gob` provides for them. */
module InodeFormat {
  import opened Outcomes
  import opened Disk

  const NAME_LEN: nat := 12

  /** A fixed-width file name, Go's `[12]byte`. */
  type Name = s: seq<byte> | |s| == NAME_LEN witness Zeros(NAME_LEN)

  /** A reading of the clock `time.Now()`; the engine only stores these. */
  datatype Timestamp = Timestamp(nanos: int)

  datatype FileEntry = FileEntry(fileName: Name, inode: int)

  datatype Inode = Inode(
    inodeNumber: int,
    fileName: Name,
    isValid: bool,
    isDirectory: bool,
    readWriteLoc: int,
    dataBlocks: seq<int>,
    indirectBlock: int,
    dataSize: int,
    createdTime: Timestamp,
    lastModified: Timestamp,
    entries: seq<FileEntry>)

  /** Go's zero value `Inode{}`. */
  const ZeroInode: Inode :=
    Inode(0, Zeros(NAME_LEN), false, false, 0, [], 0, 0, Timestamp(0), Timestamp(0), [])

  datatype SuperBlock = SuperBlock(inodeStart: int, freeBlockBitmapStart: int, dataBlockStart: int)

  /** The bytes of the Go string "root". */
  const ROOT_NAME: seq<byte> := [0x72, 0x6f, 0x6f, 0x74]

  /** `var n [12]byte; copy(n[:], s)`: the name padded with NUL bytes, or cut,
      to 12 bytes. */
  function PadName(s: seq<byte>): (n: Name)
    ensures |s| <= NAME_LEN ==> n == s + Zeros(NAME_LEN - |s|)
    ensures |s| > NAME_LEN ==> n == s[..NAME_LEN]
  {
    var z := Zeros(NAME_LEN);
    if |s| <= NAME_LEN then CopyIntoZeroBlock(z, s); CopyInto(z, s) else CopyInto(z, s)
  }

  /** The gob encoders and decoders the engine uses, one pair per record type
      it stores: an inode, the superblock, and the `[]int` image of an
      indirect block. A decoder returns None where gob reports an error. */
  datatype Codec = Codec(
    encodeInode: Inode -> seq<byte>,
    decodeInode: seq<byte> -> Option<Inode>,
    encodeSuper: SuperBlock -> seq<byte>,
    decodeSuper: seq<byte> -> Option<SuperBlock>,
    encodeList: seq<int> -> seq<byte>,
    decodeList: seq<byte> -> Option<seq<int>>)

  /** What the engine relies on from gob. A gob message is self-delimiting,
      so decoding any byte string that begins with the encoding of x gives x
      back whatever follows it (a block keeps its old bytes after a shorter
      `copy`); and every encoding holds a non-zero byte (the type
      description gob writes first), so a block holding one is not free. */
  ghost predicate Lawful(c: Codec)
  {
    && (forall x: Inode, s: seq<byte> :: c.encodeInode(x) <= s ==> c.decodeInode(s) == Some(x))
    && (forall x: SuperBlock, s: seq<byte> :: c.encodeSuper(x) <= s ==> c.decodeSuper(s) == Some(x))
    && (forall x: seq<int>, s: seq<byte> :: c.encodeList(x) <= s ==> c.decodeList(s) == Some(x))
    && (forall x: Inode :: !AllZero(c.encodeInode(x)))
    && (forall x: SuperBlock :: !AllZero(c.encodeSuper(x)))
    && (forall x: seq<int> :: !AllZero(c.encodeList(x)))
  }

  /** The images of one-entry indirect lists whose entry is a block index
      below n fit in a block. */
  ghost predicate ListsFit(c: Codec, n: nat)
  {
    forall b: int :: 0 <= b < n ==> |c.encodeList([b])| <= BLOCK_SIZE
  }

  /** `ReadInode(b)`: gob-decode the inode image held in block b. */
  function InodeAt(c: Codec, disk: seq<Block>, b: int): (r: Result<Inode>)
    ensures !(0 <= b < |disk|) ==> r == Aborted(BadIndex)
    ensures 0 <= b < |disk| && c.decodeInode(disk[b]).None? ==> r == Aborted(DecodeFailed)
    ensures 0 <= b < |disk| && c.decodeInode(disk[b]).Some? ==> r == Ok(c.decodeInode(disk[b]).value)
  {
    if !(0 <= b < |disk|) then Aborted(BadIndex)
    else match c.decodeInode(disk[b])
      case None => Aborted(DecodeFailed)
      case Some(x) => Ok(x)
  }

  /** WriteInode then ReadInode at the same block gives the inode back, all
      fields (directory entries included), when its image fits in a block. */
  lemma WriteThenReadInode(c: Codec, disk: seq<Block>, b: int, x: Inode)
    requires Lawful(c) && 0 <= b < |disk| && |c.encodeInode(x)| <= BLOCK_SIZE
    ensures InodeAt(c, Put(disk, b, c.encodeInode(x)), b) == Ok(x)
    ensures !AllZero(Put(disk, b, c.encodeInode(x))[b])
  {
    var d := Put(disk, b, c.encodeInode(x));
    assert c.encodeInode(x) <= d[b];
    CopyIntoNotZero(disk[b], c.encodeInode(x));
  }

  /** The same for the superblock. */
  lemma WriteThenReadSuperBlock(c: Codec, disk: seq<Block>, b: int, x: SuperBlock)
    requires Lawful(c) && 0 <= b < |disk| && |c.encodeSuper(x)| <= BLOCK_SIZE
    ensures c.decodeSuper(Put(disk, b, c.encodeSuper(x))[b]) == Some(x)
    ensures !AllZero(Put(disk, b, c.encodeSuper(x))[b])
  {
    var d := Put(disk, b, c.encodeSuper(x));
    assert c.encodeSuper(x) <= d[b];
    CopyIntoNotZero(disk[b], c.encodeSuper(x));
  }

  /** The same for the image of an indirect list. */
  lemma WriteThenReadList(c: Codec, disk: seq<Block>, b: int, x: seq<int>)
    requires Lawful(c) && 0 <= b < |disk| && |c.encodeList(x)| <= BLOCK_SIZE
    ensures c.decodeList(Put(disk, b, c.encodeList(x))[b]) == Some(x)
    ensures !AllZero(Put(disk, b, c.encodeList(x))[b])
  {
    var d := Put(disk, b, c.encodeList(x));
    assert c.encodeList(x) <= d[b];
    CopyIntoNotZero(disk[b], c.encodeList(x));
  }
}
