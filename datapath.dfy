/** The data path of a file: WriteFile cuts the data into 1024-byte chunks,
    puts each chunk in the first free block and records that block in one of
    the inode's three direct slots or, once those are taken, in the one slot
    of a lazily allocated indirect block; ReadFile concatenates the recorded
    blocks. Only the `Inodes` copy of an inode takes part in this path. */
module DataPath {
  import opened Outcomes
  import opened Disk
  import opened InodeFormat
  import opened Allocator

  const MAX_DIRECT_BLOCKS: nat := 3
  const MAX_INDIRECT_BLOCKS: nat := 1

  /** The most bytes a file can hold: four whole blocks. */
  const CAPACITY: nat := (MAX_DIRECT_BLOCKS + MAX_INDIRECT_BLOCKS) * BLOCK_SIZE

  /** The list a fresh indirect block is initialised with. */
  const EMPTY_INDIRECT: seq<int> := seq(MAX_INDIRECT_BLOCKS, _ => 0)

  /** The block indices of an inode in the `Inodes` table stay on the disk and
      it never has more than three direct blocks. */
  predicate WellFormed(inode: Inode, n: nat)
  {
    && |inode.dataBlocks| <= MAX_DIRECT_BLOCKS
    && InRange(inode.dataBlocks, n)
    && 0 <= inode.indirectBlock < n
  }

  predicate InRange(blocks: seq<int>, n: int)
  {
    forall i :: 0 <= i < |blocks| ==> 0 <= blocks[i] < n
  }

  // ---------------------------------------------------------------------
  // WriteFile

  /** The state of one WriteFile call after some chunks: the disk and the
      working copy of the inode, or the disk as it was when the call stopped. */
  datatype Run = Running(disk: seq<Block>, inode: Inode) | Halted(disk: seq<Block>, fault: Fault)

  /** The loop over the decoded indirect list: the first zero entry becomes
      `block`; when no entry is zero the list is unchanged and the block is
      not recorded anywhere. */
  function SetFirstZero(list: seq<int>, block: int): (r: seq<int>)
    ensures |r| == |list|
    ensures (forall j :: 0 <= j < |list| ==> list[j] != 0) ==> r == list
    ensures forall k :: 0 <= k < |list| && list[k] == 0 && (forall j :: 0 <= j < k ==> list[j] != 0) ==>
      r == list[k := block]
  {
    if list == [] then []
    else if list[0] == 0 then [block] + list[1..]
    else [list[0]] + SetFirstZero(list[1..], block)
  }

  /** The end of the chunk that starts at `start`. */
  function ChunkEnd(data: seq<byte>, start: nat): (end: nat)
    requires start < |data|
    ensures start < end <= |data| && end - start <= BLOCK_SIZE
    ensures end == |data| || end == start + BLOCK_SIZE
  {
    if start + BLOCK_SIZE > |data| then |data| else start + BLOCK_SIZE
  }

  function Chunk(data: seq<byte>, start: nat): (chunk: seq<byte>)
    requires start < |data|
    ensures 0 < |chunk| <= BLOCK_SIZE
  {
    data[start..ChunkEnd(data, start)]
  }

  /** Allocate the indirect block if the inode has none yet: the first free
      block, initialised with the image of an all-zero list. */
  function AllocIndirect(c: Codec, disk: seq<Block>, inode: Inode): (r: Run)
    ensures |r.disk| == |disk|
    ensures r.Halted? ==> inode.indirectBlock == 0 && FirstFree(disk) < 0 && r == Halted(disk, DiskFull)
    ensures r.Running? && inode.indirectBlock == 0 ==> r.inode == inode.(indirectBlock := FirstFree(disk))
    ensures inode.indirectBlock != 0 ==> r.Running? && r.inode == inode && r.disk == disk
  {
    if inode.indirectBlock != 0 then Running(disk, inode)
    else
      var g := FirstFree(disk);
      if g < 0 then Halted(disk, DiskFull)
      else Running(Put(disk, g, c.encodeList(EMPTY_INDIRECT)), inode.(indirectBlock := g))
  }

  /** The allocation fails exactly when a new indirect block is needed and
      the disk is full; a new block holds the image of an all-zero list, and
      no other block changes. */
  lemma AllocIndirectEffect(c: Codec, disk: seq<Block>, inode: Inode)
    ensures var r := AllocIndirect(c, disk, inode);
      && (r.Halted? <==> inode.indirectBlock == 0 && FirstFree(disk) < 0)
      && (r.Running? && inode.indirectBlock == 0 ==>
            r.disk[FirstFree(disk)] == CopyInto(disk[FirstFree(disk)], c.encodeList(EMPTY_INDIRECT)))
      && (r.Running? ==> forall j :: 0 <= j < |disk| && j != r.inode.indirectBlock ==> r.disk[j] == disk[j])
  {
  }

  /** Decode the indirect block, put `block` in its first zero slot and write
      the list back. */
  function RecordIndirect(c: Codec, disk: seq<Block>, inode: Inode, block: int): (r: Run)
    ensures |r.disk| == |disk|
    ensures !(0 <= inode.indirectBlock < |disk|) ==> r == Halted(disk, BadIndex)
    ensures 0 <= inode.indirectBlock < |disk| && c.decodeList(disk[inode.indirectBlock]).None? ==>
      r == Halted(disk, DecodeFailed)
    ensures r.Running? ==> r.inode == inode
  {
    var ib := inode.indirectBlock;
    if !(0 <= ib < |disk|) then Halted(disk, BadIndex)
    else match c.decodeList(disk[ib])
      case None => Halted(disk, DecodeFailed)
      case Some(list) => Running(Put(disk, ib, c.encodeList(SetFirstZero(list, block))), inode)
  }

  /** Recording succeeds exactly when the indirect block is on the disk and
      decodes; then that block holds the list with `block` in its first zero
      slot, and no other block changes. */
  lemma RecordIndirectEffect(c: Codec, disk: seq<Block>, inode: Inode, block: int)
    ensures var r := RecordIndirect(c, disk, inode, block);
      && (r.Running? <==> 0 <= inode.indirectBlock < |disk| && c.decodeList(disk[inode.indirectBlock]).Some?)
      && (r.Running? ==>
            var list := c.decodeList(disk[inode.indirectBlock]).value;
            r.disk[inode.indirectBlock] == CopyInto(disk[inode.indirectBlock], c.encodeList(SetFirstZero(list, block))))
      && (r.Running? ==> forall j :: 0 <= j < |disk| && j != inode.indirectBlock ==> r.disk[j] == disk[j])
  {
  }

  /** The branch of WriteFile's loop taken once the direct slots are full:
      allocate the indirect block if need be, then record `block` in it. */
  function IndirectPath(c: Codec, disk: seq<Block>, inode: Inode, block: int): (r: Run)
    ensures |r.disk| == |disk|
    ensures r.Halted? ==> r.fault in {DiskFull, BadIndex, DecodeFailed}
    ensures r.Halted? && r.fault == DiskFull <==> inode.indirectBlock == 0 && FirstFree(disk) < 0
    ensures r.Running? ==> r.inode == inode.(indirectBlock := r.inode.indirectBlock)
    ensures r.Running? && inode.indirectBlock != 0 ==> r.inode == inode
  {
    match AllocIndirect(c, disk, inode)
    case Halted(d', e) => Halted(d', e)
    case Running(d', inode') => RecordIndirect(c, d', inode', block)
  }

  /** The indirect branch stops for a full disk exactly when it has to
      allocate the indirect block and cannot; when it completes, only the
      indirect block has changed. */
  lemma IndirectPathEffect(c: Codec, disk: seq<Block>, inode: Inode, block: int)
    ensures var r := IndirectPath(c, disk, inode, block);
      && (r.Halted? && r.fault == DiskFull <==> inode.indirectBlock == 0 && FirstFree(disk) < 0)
      && (r.Running? ==> forall j :: 0 <= j < |disk| && j != r.inode.indirectBlock ==> r.disk[j] == disk[j])
  {
    AllocIndirectEffect(c, disk, inode);
    var a := AllocIndirect(c, disk, inode);
    if a.Running? {
      RecordIndirectEffect(c, a.disk, a.inode, block);
    }
  }

  /** One pass of WriteFile's loop, for one chunk. */
  function WriteChunk(c: Codec, disk: seq<Block>, inode: Inode, chunk: seq<byte>): (r: Run)
    ensures |r.disk| == |disk|
    ensures FirstFree(disk) < 0 ==> r == Halted(disk, DiskFull)
    ensures r.Halted? ==> r.fault in {DiskFull, BadIndex, DecodeFailed}
    ensures r.Running? ==> 0 <= FirstFree(disk) < |disk|
    ensures r.Running? && |inode.dataBlocks| < MAX_DIRECT_BLOCKS ==>
      r.inode == inode.(dataBlocks := inode.dataBlocks + [FirstFree(disk)])
  {
    var f := FirstFree(disk);
    if f < 0 then Halted(disk, DiskFull)
    else
      var d := Put(disk, f, chunk);
      if |inode.dataBlocks| < MAX_DIRECT_BLOCKS then
        Running(d, inode.(dataBlocks := inode.dataBlocks + [f]))
      else IndirectPath(c, d, inode, f)
  }

  /** One pass stops for a full disk when no block is free, or when the
      chunk took the last free block and an indirect block must then be
      allocated. Otherwise it puts the chunk in the first free block, and
      only that block and the indirect block change. The chunk can be overwritten only by the
      indirect list's image, when the indirect block is the block the chunk
      went into (as when a fresh indirect block is allocated over an all-zero
      chunk). */
  lemma WriteChunkEffect(c: Codec, disk: seq<Block>, inode: Inode, chunk: seq<byte>)
    ensures var r := WriteChunk(c, disk, inode, chunk);
      var f := FirstFree(disk);
      && (r.Halted? && r.fault == DiskFull <==>
            || f < 0
            || (&& |inode.dataBlocks| >= MAX_DIRECT_BLOCKS
                && inode.indirectBlock == 0
                && FirstFree(Put(disk, f, chunk)) < 0))
      && (r.Running? && (|inode.dataBlocks| < MAX_DIRECT_BLOCKS || r.inode.indirectBlock != f) ==>
            r.disk[f] == CopyInto(disk[f], chunk))
      && (r.Running? ==> forall j :: 0 <= j < |disk| && j != f && j != r.inode.indirectBlock ==> r.disk[j] == disk[j])
  {
    var f := FirstFree(disk);
    if f >= 0 && |inode.dataBlocks| >= MAX_DIRECT_BLOCKS {
      IndirectPathEffect(c, Put(disk, f, chunk), inode, f);
    }
  }

  /** WriteFile's loop from offset `start` on. */
  function WriteChunks(c: Codec, disk: seq<Block>, inode: Inode, data: seq<byte>, start: nat): (r: Run)
    ensures r.Halted? ==> r.fault in {DiskFull, BadIndex, DecodeFailed}
    ensures start >= |data| ==> r == Running(disk, inode)
    decreases |data| - start
  {
    if start >= |data| then Running(disk, inode)
    else match WriteChunk(c, disk, inode, Chunk(data, start))
      case Halted(d, e) => Halted(d, e)
      case Running(d, inode') => WriteChunks(c, d, inode', data, start + BLOCK_SIZE)
  }

  /** The number of chunks WriteFile cuts from `data` from `start` on. */
  function Chunks(data: seq<byte>, start: nat): nat
    decreases |data| - start
  {
    if start >= |data| then 0 else 1 + Chunks(data, start + BLOCK_SIZE)
  }

  lemma {:induction false} ChunksCount(data: seq<byte>, start: nat)
    requires start <= |data|
    ensures Chunks(data, start) == (|data| - start + BLOCK_SIZE - 1) / BLOCK_SIZE
    decreases |data| - start
  {
    if start < |data| && start + BLOCK_SIZE <= |data| {
      ChunksCount(data, start + BLOCK_SIZE);
    }
  }

  function Min(a: int, b: int): int { if a <= b then a else b }

  /** `after` is `before` with only its block pointers changed, after
      `passes` passes of WriteFile's loop: the direct list is extended to
      min(3, old length + passes) entries, a non-zero indirect block is kept,
      and no indirect block is allocated while the direct slots suffice. */
  predicate Grew(before: Inode, after: Inode, passes: nat)
  {
    && after == before.(dataBlocks := after.dataBlocks, indirectBlock := after.indirectBlock)
    && before.dataBlocks <= after.dataBlocks
    && |after.dataBlocks| == Min(MAX_DIRECT_BLOCKS, |before.dataBlocks| + passes)
    && (before.indirectBlock != 0 ==> after.indirectBlock == before.indirectBlock)
    && (|before.dataBlocks| + passes <= MAX_DIRECT_BLOCKS ==> after.indirectBlock == before.indirectBlock)
  }

  /** Grew composes one pass with the passes after it; WriteChunksShape's
      induction step. */
  lemma GrewTrans(a: Inode, b: Inode, c: Inode, m: nat)
    requires |a.dataBlocks| <= MAX_DIRECT_BLOCKS
    requires Grew(a, b, 1) && Grew(b, c, m)
    ensures Grew(a, c, 1 + m)
  {
  }

  /** One pass of WriteFile's loop changes only the inode's block pointers. */
  lemma WriteChunkShape(c: Codec, disk: seq<Block>, inode: Inode, chunk: seq<byte>)
    requires |inode.dataBlocks| <= MAX_DIRECT_BLOCKS
    ensures var r := WriteChunk(c, disk, inode, chunk);
      r.Running? ==>
        && |r.disk| == |disk|
        && Grew(inode, r.inode, 1)
        && (|inode.dataBlocks| < MAX_DIRECT_BLOCKS ==> r.inode.dataBlocks == inode.dataBlocks + [FirstFree(disk)])
        && (WellFormed(inode, |disk|) ==> WellFormed(r.inode, |disk|))
  {
    var r := WriteChunk(c, disk, inode, chunk);
    var f := FirstFree(disk);
    if r.Running? && |inode.dataBlocks| == MAX_DIRECT_BLOCKS {
      var d := Put(disk, f, chunk);
      var a := AllocIndirect(c, d, inode);
      assert a.Running?;
      assert |a.disk| == |disk|;
      assert a.inode == inode.(indirectBlock := a.inode.indirectBlock);
      assert 0 <= inode.indirectBlock < |disk| ==> 0 <= a.inode.indirectBlock < |disk|;
    }
  }

  /** Whatever the disk holds, a WriteFile that runs to the end changes only
      the inode's block pointers (DataSize in particular is never updated);
      it appends to the direct list, never beyond three entries; and it
      allocates no indirect block while the direct slots suffice and never
      replaces one once it is non-zero. */
  lemma {:induction false} WriteChunksShape(c: Codec, disk: seq<Block>, inode: Inode, data: seq<byte>, start: nat)
    requires |inode.dataBlocks| <= MAX_DIRECT_BLOCKS
    ensures var r := WriteChunks(c, disk, inode, data, start);
      r.Running? ==>
        && |r.disk| == |disk|
        && Grew(inode, r.inode, Chunks(data, start))
        && (WellFormed(inode, |disk|) ==> WellFormed(r.inode, |disk|))
    decreases |data| - start
  {
    if start < |data| {
      var w := WriteChunk(c, disk, inode, Chunk(data, start));
      WriteChunkShape(c, disk, inode, Chunk(data, start));
      if w.Running? {
        WriteChunksShape(c, w.disk, w.inode, data, start + BLOCK_SIZE);
        var r := WriteChunks(c, w.disk, w.inode, data, start + BLOCK_SIZE);
        if r.Running? {
          GrewTrans(inode, w.inode, r.inode, Chunks(data, start + BLOCK_SIZE));
        }
      }
    } else {
      assert inode.(dataBlocks := inode.dataBlocks, indirectBlock := inode.indirectBlock) == inode;
    }
  }

  // ---------------------------------------------------------------------
  // ReadFile

  /** The full contents of the listed blocks, one after the other. */
  function Gather(disk: seq<Block>, blocks: seq<int>): (s: seq<byte>)
    requires InRange(blocks, |disk|)
    ensures |s| == BLOCK_SIZE * |blocks|
  {
    if blocks == [] then []
    else Gather(disk, blocks[..|blocks| - 1]) + disk[blocks[|blocks| - 1]]
  }

  /** The non-zero entries of an indirect list, in order. */
  function NonZero(list: seq<int>): (r: seq<int>)
    ensures |r| <= |list|
    ensures forall i :: 0 <= i < |r| ==> r[i] != 0
  {
    if list == [] then []
    else NonZero(list[..|list| - 1]) + (if list[|list| - 1] != 0 then [list[|list| - 1]] else [])
  }

  /** NonZero keeps every non-zero entry of the list and takes nothing else
      from anywhere. */
  lemma {:induction false} NonZeroEntries(list: seq<int>)
    ensures forall k :: 0 <= k < |list| && list[k] != 0 ==> list[k] in NonZero(list)
    ensures forall i :: 0 <= i < |NonZero(list)| ==> NonZero(list)[i] in list
  {
    if list != [] {
      var front := list[..|list| - 1];
      NonZeroEntries(front);
      assert forall k :: 0 <= k < |front| ==> front[k] == list[k];
      assert forall x :: x in front ==> x in list;
    }
  }

  /** What ReadFile returns for an inode. */
  function FileContents(c: Codec, disk: seq<Block>, inode: Inode): (r: Result<seq<byte>>)
    ensures r.Aborted? ==> r.fault in {BadIndex, DecodeFailed}
  {
    if !InRange(inode.dataBlocks, |disk|) then Aborted(BadIndex)
    else if inode.indirectBlock == 0 then Ok(Gather(disk, inode.dataBlocks))
    else if !(0 <= inode.indirectBlock < |disk|) then Aborted(BadIndex)
    else match c.decodeList(disk[inode.indirectBlock])
      case None => Aborted(DecodeFailed)
      case Some(list) =>
        if !InRange(NonZero(list), |disk|) then Aborted(BadIndex)
        else Ok(Gather(disk, inode.dataBlocks) + Gather(disk, NonZero(list)))
  }

  /** ReadFile completes exactly when every direct block is on the disk and,
      if there is an indirect block, it is on the disk, decodes, and every
      non-zero entry is on the disk. */
  lemma FileContentsOk(c: Codec, disk: seq<Block>, inode: Inode)
    ensures !InRange(inode.dataBlocks, |disk|) ==> FileContents(c, disk, inode) == Aborted(BadIndex)
    ensures FileContents(c, disk, inode).Ok? <==>
      && InRange(inode.dataBlocks, |disk|)
      && (inode.indirectBlock != 0 ==>
            && 0 <= inode.indirectBlock < |disk|
            && c.decodeList(disk[inode.indirectBlock]).Some?
            && InRange(NonZero(c.decodeList(disk[inode.indirectBlock]).value), |disk|))
  {
  }

  /** The blocks ReadFile reads: the direct ones, then the non-zero entries of
      the indirect list. */
  function RecordedBlocks(c: Codec, disk: seq<Block>, inode: Inode): seq<int>
  {
    if inode.indirectBlock != 0 && 0 <= inode.indirectBlock < |disk|
       && c.decodeList(disk[inode.indirectBlock]).Some?
    then inode.dataBlocks + NonZero(c.decodeList(disk[inode.indirectBlock]).value)
    else inode.dataBlocks
  }

  lemma {:induction false} GatherAppend(disk: seq<Block>, xs: seq<int>, ys: seq<int>)
    requires InRange(xs, |disk|) && InRange(ys, |disk|)
    ensures InRange(xs + ys, |disk|)
    ensures Gather(disk, xs) + Gather(disk, ys) == Gather(disk, xs + ys)
    decreases |ys|
  {
    if ys == [] {
      assert xs + ys == xs;
    } else {
      var ys' := ys[..|ys| - 1];
      var last := ys[|ys| - 1];
      GatherAppend(disk, xs, ys');
      assert (xs + ys)[..|xs + ys| - 1] == xs + ys';
      assert (xs + ys)[|xs + ys| - 1] == last;
      assert Gather(disk, xs + ys) == Gather(disk, xs + ys') + disk[last];
      assert Gather(disk, ys) == Gather(disk, ys') + disk[last];
    }
  }

  lemma {:induction false} GatherBlock(disk: seq<Block>, blocks: seq<int>, k: nat)
    requires InRange(blocks, |disk|) && k < |blocks|
    ensures Gather(disk, blocks)[k * BLOCK_SIZE .. (k + 1) * BLOCK_SIZE] == disk[blocks[k]]
    decreases |blocks|
  {
    var front := blocks[..|blocks| - 1];
    var g := Gather(disk, front);
    if k < |blocks| - 1 {
      GatherBlock(disk, front, k);
      assert (g + disk[blocks[|blocks| - 1]])[k * BLOCK_SIZE .. (k + 1) * BLOCK_SIZE]
          == g[k * BLOCK_SIZE .. (k + 1) * BLOCK_SIZE];
    }
  }

  lemma {:induction false} GatherFrame(d1: seq<Block>, d2: seq<Block>, blocks: seq<int>)
    requires InRange(blocks, |d1|) && InRange(blocks, |d2|)
    requires forall i :: 0 <= i < |blocks| ==> d1[blocks[i]] == d2[blocks[i]]
    ensures Gather(d1, blocks) == Gather(d2, blocks)
    decreases |blocks|
  {
    if blocks != [] {
      GatherFrame(d1, d2, blocks[..|blocks| - 1]);
    }
  }

  /** Appending an entry to an indirect list. */
  lemma NonZeroSnoc(xs: seq<int>, x: int)
    ensures NonZero(xs + [x]) == NonZero(xs) + (if x != 0 then [x] else [])
  {
    assert (xs + [x])[..|xs|] == xs;
  }

  /** Appending a block to a block list. */
  lemma GatherSnoc(disk: seq<Block>, ys: seq<int>, x: int)
    requires InRange(ys, |disk|) && 0 <= x < |disk|
    ensures InRange(ys + [x], |disk|)
    ensures Gather(disk, ys + [x]) == Gather(disk, ys) + disk[x]
  {
    assert (ys + [x])[..|ys|] == ys;
  }

  /** ReadFile returns, in order, the whole 1024 bytes of every direct block
      and then of every non-zero indirect entry; nothing is trimmed to the
      length that was written. */
  lemma ReadFileBlocksInOrder(c: Codec, disk: seq<Block>, inode: Inode)
    requires FileContents(c, disk, inode).Ok?
    ensures var s := FileContents(c, disk, inode).value;
      var bs := RecordedBlocks(c, disk, inode);
      && InRange(bs, |disk|)
      && |s| == BLOCK_SIZE * |bs|
      && forall k :: 0 <= k < |bs| ==> s[k * BLOCK_SIZE .. (k + 1) * BLOCK_SIZE] == disk[bs[k]]
  {
    var s := FileContents(c, disk, inode).value;
    var bs := RecordedBlocks(c, disk, inode);
    if inode.indirectBlock != 0 {
      GatherAppend(disk, inode.dataBlocks, NonZero(c.decodeList(disk[inode.indirectBlock]).value));
    }
    assert s == Gather(disk, bs);
    forall k | 0 <= k < |bs|
      ensures s[k * BLOCK_SIZE .. (k + 1) * BLOCK_SIZE] == disk[bs[k]]
    {
      GatherBlock(disk, bs, k);
    }
  }
}
