/** First-fit allocation: the free-inode scan over the inode table and the
    free-block scan over the disk, where a block is free exactly when every
    byte of it is zero. */
module Allocator {
  import opened Disk
  import opened InodeFormat

  const MAX_INODES: nat := 80

  /** The index findFreeInode returns: the lowest slot that is not valid, or
      -1 when every slot is valid. */
  function FirstInvalid(inodes: seq<Inode>): (r: int)
    ensures -1 <= r < |inodes|
    ensures r >= 0 ==> !inodes[r].isValid && forall j :: 0 <= j < r ==> inodes[j].isValid
    ensures r == -1 <==> forall j :: 0 <= j < |inodes| ==> inodes[j].isValid
  {
    if inodes == [] then -1
    else if !inodes[0].isValid then 0
    else
      var r := FirstInvalid(inodes[1..]);
      if r < 0 then -1 else r + 1
  }

  /** The index findFreeDataBlock returns: the lowest all-zero block, or -1
      when there is none. */
  function FirstFree(disk: seq<Block>): (r: int)
    ensures -1 <= r < |disk|
    ensures r >= 0 ==> AllZero(disk[r]) && forall j :: 0 <= j < r ==> !AllZero(disk[j])
    ensures r == -1 <==> forall j :: 0 <= j < |disk| ==> !AllZero(disk[j])
  {
    if disk == [] then -1
    else if AllZero(disk[0]) then 0
    else
      var r := FirstFree(disk[1..]);
      if r < 0 then -1 else r + 1
  }

  /** isBlockFree: true exactly when every byte of the block is zero. */
  method IsBlockFree(block: Block) returns (free: bool)
    ensures free <==> AllZero(block)
  {
    for i := 0 to |block|
      invariant forall j :: 0 <= j < i ==> block[j] == 0
    {
      if block[i] != 0 {
        return false;
      }
    }
    return true;
  }

  /** A block found free that then receives a chunk with a non-zero byte is
      no longer free, so the next scan returns a later block or -1: two
      successive allocations differ. */
  lemma ClaimedBlockIsSkipped(disk: seq<Block>, chunk: seq<byte>)
    requires FirstFree(disk) >= 0
    requires |chunk| <= BLOCK_SIZE && !AllZero(chunk)
    ensures var f := FirstFree(disk);
      var g := FirstFree(Put(disk, f, chunk));
      g == -1 || g > f
  {
    var f := FirstFree(disk);
    var d := Put(disk, f, chunk);
    CopyIntoNotZero(disk[f], chunk);
    assert forall j :: 0 <= j <= f ==> !AllZero(d[j]);
  }

  /** A chunk that is all zero leaves its block free, so the next scan
      returns the same block again. */
  lemma ZeroChunkLeavesBlockFree(disk: seq<Block>, chunk: seq<byte>)
    requires FirstFree(disk) >= 0
    requires AllZero(chunk)
    ensures var f := FirstFree(disk);
      FirstFree(Put(disk, f, chunk)) == f
  {
    var f := FirstFree(disk);
    var d := Put(disk, f, chunk);
    assert AllZero(d[f]);
    assert forall j :: 0 <= j < f ==> d[j] == disk[j];
  }
}
