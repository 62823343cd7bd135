/** What a WriteFile on a fresh file leaves for ReadFile to return.

    The allocator calls a block free when all its bytes are zero, so the
    round trip needs every chunk to hold a non-zero byte (an all-zero chunk
    leaves its block free for the next allocation, see
    Allocator.ZeroChunkLeavesBlockFree), and block 0 to be in use (an
    indirect block allocated at block 0 would read as "no indirect block").
    Under those conditions the recorded blocks are never overwritten, and
    ReadFile returns the data padded with zeros to a whole block, cut at the
    four blocks a file can address. */
module WriteReadRoundTrip {
  import opened Outcomes
  import opened Disk
  import opened InodeFormat
  import opened Allocator
  import opened DataPath

  /** Block b holds data: it is on the disk and not all zero. */
  predicate InUse(disk: seq<Block>, b: int)
  {
    0 <= b < |disk| && !AllZero(disk[b])
  }

  /** Every chunk WriteFile cuts from `data`, from `start` on, has a
      non-zero byte. */
  predicate NoZeroChunks(data: seq<byte>, start: nat)
    decreases |data| - start
  {
    start >= |data| || (!AllZero(Chunk(data, start)) && NoZeroChunks(data, start + BLOCK_SIZE))
  }

  /** The indirect part of the layout WriteFile builds: all three direct
      slots taken, the indirect block in use, distinct from the direct blocks,
      holding a one-entry list whose entry, if non-zero, is another block in
      use. */
  ghost predicate IndirectLaid(c: Codec, disk: seq<Block>, inode: Inode)
  {
    var ib := inode.indirectBlock;
    && |inode.dataBlocks| == MAX_DIRECT_BLOCKS
    && InUse(disk, ib)
    && ib !in inode.dataBlocks
    && c.decodeList(disk[ib]).Some?
    && |c.decodeList(disk[ib]).value| == MAX_INDIRECT_BLOCKS
    && var e := c.decodeList(disk[ib]).value[0];
       e != 0 ==> InUse(disk, e) && e != ib
  }

  /** The layout WriteFile builds for a file whose blocks all hold data. */
  ghost predicate Laid(c: Codec, disk: seq<Block>, inode: Inode)
  {
    && InUse(disk, 0)
    && |inode.dataBlocks| <= MAX_DIRECT_BLOCKS
    && (forall i :: 0 <= i < |inode.dataBlocks| ==> InUse(disk, inode.dataBlocks[i]))
    && (inode.indirectBlock != 0 ==> IndirectLaid(c, disk, inode))
  }

  /** The one indirect entry of a laid-out inode. */
  ghost function IndirectEntry(c: Codec, disk: seq<Block>, inode: Inode): int
    requires Laid(c, disk, inode) && inode.indirectBlock != 0
  {
    c.decodeList(disk[inode.indirectBlock]).value[0]
  }

  /** The inode can record one more block. */
  ghost predicate HasSlot(c: Codec, disk: seq<Block>, inode: Inode)
    requires Laid(c, disk, inode)
  {
    |inode.dataBlocks| < MAX_DIRECT_BLOCKS || inode.indirectBlock == 0 || IndirectEntry(c, disk, inode) == 0
  }

  /** Block b is none of the blocks the inode refers to. */
  ghost predicate Unreferenced(c: Codec, disk: seq<Block>, inode: Inode, b: int)
    requires Laid(c, disk, inode)
  {
    && b !in inode.dataBlocks
    && (inode.indirectBlock != 0 ==> b != inode.indirectBlock && b != IndirectEntry(c, disk, inode))
  }

  lemma NonZeroOne(x: int)
    ensures NonZero([x]) == if x != 0 then [x] else []
  {
    assert [x][..0] == [];
  }

  /** A laid-out inode reads back whole, at most four blocks, and fewer than
      four exactly when a slot is left. */
  lemma LaidContents(c: Codec, disk: seq<Block>, inode: Inode)
    requires Laid(c, disk, inode)
    ensures FileContents(c, disk, inode).Ok?
    ensures |FileContents(c, disk, inode).value| <= CAPACITY
    ensures |FileContents(c, disk, inode).value| < CAPACITY <==> HasSlot(c, disk, inode)
  {
    if inode.indirectBlock != 0 {
      NonZeroOne(IndirectEntry(c, disk, inode));
      assert c.decodeList(disk[inode.indirectBlock]).value == [IndirectEntry(c, disk, inode)];
    }
  }

  /** Block 0 and every block the inode refers to hold the same bytes on
      both disks. */
  ghost predicate SameRefs(c: Codec, d1: seq<Block>, d2: seq<Block>, inode: Inode)
    requires Laid(c, d1, inode)
  {
    && |d2| == |d1|
    && d2[0] == d1[0]
    && (forall i :: 0 <= i < |inode.dataBlocks| ==> d2[inode.dataBlocks[i]] == d1[inode.dataBlocks[i]])
    && (inode.indirectBlock != 0 ==>
          && d2[inode.indirectBlock] == d1[inode.indirectBlock]
          && var e := IndirectEntry(c, d1, inode);
             e != 0 ==> d2[e] == d1[e])
  }

  /** A disk that agrees on every block a laid-out inode refers to keeps the
      layout and what ReadFile returns. */
  lemma FrameKeeps(c: Codec, d1: seq<Block>, d2: seq<Block>, inode: Inode)
    requires Laid(c, d1, inode) && SameRefs(c, d1, d2, inode)
    ensures Laid(c, d2, inode)
    ensures FileContents(c, d2, inode) == FileContents(c, d1, inode)
    ensures inode.indirectBlock != 0 ==> IndirectEntry(c, d2, inode) == IndirectEntry(c, d1, inode)
  {
    GatherFrame(d1, d2, inode.dataBlocks);
    if inode.indirectBlock != 0 {
      var e := IndirectEntry(c, d1, inode);
      NonZeroOne(e);
      assert c.decodeList(d1[inode.indirectBlock]).value == [e];
      GatherFrame(d1, d2, NonZero([e]));
    }
  }

  /** Writing to a free block disturbs nothing a laid-out inode refers to. */
  lemma PutFreeKeeps(c: Codec, disk: seq<Block>, inode: Inode, b: int, bytes: seq<byte>)
    requires Laid(c, disk, inode)
    requires 0 <= b < |disk| && AllZero(disk[b])
    requires |bytes| <= BLOCK_SIZE && !AllZero(bytes)
    ensures var d := Put(disk, b, bytes);
      && Laid(c, d, inode)
      && FileContents(c, d, inode) == FileContents(c, disk, inode)
      && InUse(d, b)
      && Unreferenced(c, d, inode, b)
  {
    var d := Put(disk, b, bytes);
    CopyIntoNotZero(disk[b], bytes);
    assert Unreferenced(c, disk, inode, b);
    assert SameRefs(c, disk, d, inode);
    FrameKeeps(c, disk, d, inode);
  }

  /** Allocating the indirect block keeps the layout and what ReadFile
      returns, and leaves the just-written block f alone. */
  lemma AllocKeeps(c: Codec, d: seq<Block>, inode: Inode, f: int)
    requires Lawful(c) && ListsFit(c, |d|)
    requires Laid(c, d, inode) && |inode.dataBlocks| == MAX_DIRECT_BLOCKS
    requires InUse(d, f) && f != 0 && Unreferenced(c, d, inode, f)
    ensures var a := AllocIndirect(c, d, inode);
      && (a.Halted? ==> a.fault == DiskFull)
      && (a.Running? ==>
            && |a.disk| == |d|
            && a.inode == inode.(indirectBlock := a.inode.indirectBlock)
            && a.inode.indirectBlock != 0
            && Laid(c, a.disk, a.inode)
            && FileContents(c, a.disk, a.inode) == FileContents(c, d, inode)
            && a.disk[f] == d[f]
            && Unreferenced(c, a.disk, a.inode, f))
  {
    var a := AllocIndirect(c, d, inode);
    if inode.indirectBlock == 0 && a.Running? {
      var g := FirstFree(d);
      assert g != 0 && g != f && g !in inode.dataBlocks;
      assert EMPTY_INDIRECT == [0];
      WriteThenReadList(c, d, g, [0]);
      var d2 := Put(d, g, c.encodeList([0]));
      assert a.disk == d2;
      assert forall i :: 0 <= i < |inode.dataBlocks| ==> d2[inode.dataBlocks[i]] == d[inode.dataBlocks[i]];
      assert Laid(c, d2, a.inode);
      GatherFrame(d, d2, inode.dataBlocks);
      NonZeroOne(0);
      assert c.decodeList(d2[g]) == Some([0]);
      assert FileContents(c, d2, a.inode) == Ok(Gather(d2, inode.dataBlocks) + Gather(d2, []));
      assert Gather(d2, []) == [];
      assert Gather(d2, inode.dataBlocks) + [] == Gather(d, inode.dataBlocks);
      assert FileContents(c, d, inode) == Ok(Gather(d, inode.dataBlocks));
    }
  }

  /** Rewriting the indirect block with bytes that decode to the one-entry
      list [x], where x is the old entry or a block in use that the inode does
      not refer to, keeps the layout. */
  lemma RewriteIndirect(c: Codec, d: seq<Block>, inode: Inode, x: int, bytes: seq<byte>)
    requires Laid(c, d, inode) && inode.indirectBlock != 0
    requires x == IndirectEntry(c, d, inode) || (InUse(d, x) && x != 0 && Unreferenced(c, d, inode, x))
    requires var b := Put(d, inode.indirectBlock, bytes)[inode.indirectBlock];
      c.decodeList(b) == Some([x]) && !AllZero(b)
    ensures var d3 := Put(d, inode.indirectBlock, bytes);
      && Laid(c, d3, inode)
      && IndirectEntry(c, d3, inode) == x
      && Gather(d3, inode.dataBlocks) == Gather(d, inode.dataBlocks)
      && (x != 0 ==> d3[x] == d[x])
  {
    var ib := inode.indirectBlock;
    var d3 := Put(d, ib, bytes);
    var db := inode.dataBlocks;
    assert forall i :: 0 <= i < |db| ==> db[i] != ib && d3[db[i]] == d[db[i]];
    GatherFrame(d, d3, db);
    assert x != 0 ==> x != ib;
    assert IndirectLaid(c, d3, inode);
  }

  /** What ReadFile returns for a laid-out inode whose indirect entry is
      still zero: the direct blocks only. */
  lemma IndirectContentsEmpty(c: Codec, d: seq<Block>, inode: Inode)
    requires Laid(c, d, inode) && inode.indirectBlock != 0 && IndirectEntry(c, d, inode) == 0
    ensures FileContents(c, d, inode) == Ok(Gather(d, inode.dataBlocks))
  {
    NonZeroOne(0);
    assert c.decodeList(d[inode.indirectBlock]).value == [0];
    var g := Gather(d, inode.dataBlocks);
    assert g + Gather(d, []) == g + [] == g;
  }

  /** What ReadFile returns for a laid-out inode whose indirect entry is
      set: the direct blocks, then the block of the entry. */
  lemma IndirectContentsFull(c: Codec, d: seq<Block>, inode: Inode)
    requires Laid(c, d, inode) && inode.indirectBlock != 0 && IndirectEntry(c, d, inode) != 0
    ensures FileContents(c, d, inode) == Ok(Gather(d, inode.dataBlocks) + d[IndirectEntry(c, d, inode)])
  {
    var e := IndirectEntry(c, d, inode);
    NonZeroOne(e);
    assert c.decodeList(d[inode.indirectBlock]).value == [e];
    GatherSnoc(d, [], e);
    assert [] + [e] == [e];
    assert Gather(d, []) + d[e] == d[e];
    assert FileContents(c, d, inode) == Ok(Gather(d, inode.dataBlocks) + Gather(d, [e]));
  }

  /** Recording block f in the indirect list: it takes the slot if the slot
      is free and is dropped otherwise; the layout is kept either way. */
  lemma RecordKeeps(c: Codec, d: seq<Block>, inode: Inode, f: int)
    requires Lawful(c) && ListsFit(c, |d|)
    requires Laid(c, d, inode) && inode.indirectBlock != 0
    requires InUse(d, f) && f != 0 && Unreferenced(c, d, inode, f)
    ensures FileContents(c, d, inode).Ok?
    ensures var r := RecordIndirect(c, d, inode, f);
      && r.Running?
      && r.inode == inode
      && |r.disk| == |d|
      && Laid(c, r.disk, inode)
      && FileContents(c, r.disk, inode) ==
           Ok(if |FileContents(c, d, inode).value| < CAPACITY then FileContents(c, d, inode).value + d[f]
              else FileContents(c, d, inode).value)
  {
    LaidContents(c, d, inode);
    var ib := inode.indirectBlock;
    var e := IndirectEntry(c, d, inode);
    assert c.decodeList(d[ib]).value == [e];
    var x := if e == 0 then f else e;
    assert SetFirstZero([e], f) == [x];
    WriteThenReadList(c, d, ib, [x]);
    RewriteIndirect(c, d, inode, x, c.encodeList([x]));
    var d3 := Put(d, ib, c.encodeList([x]));
    assert RecordIndirect(c, d, inode, f) == Running(d3, inode);
    IndirectContentsFull(c, d3, inode);
    var g := Gather(d, inode.dataBlocks);
    assert Gather(d3, inode.dataBlocks) == g;
    if e == 0 {
      IndirectContentsEmpty(c, d, inode);
      assert HasSlot(c, d, inode);
      assert d3[f] == d[f];
    } else {
      IndirectContentsFull(c, d, inode);
      assert !HasSlot(c, d, inode);
      assert d3[e] == d[e];
    }
  }

  /** One chunk with a non-zero byte, written over a laid-out inode. */
  function Grow(content: seq<byte>, chunk: seq<byte>): seq<byte>
    requires |chunk| <= BLOCK_SIZE
  {
    if |content| < CAPACITY then content + chunk + Zeros(BLOCK_SIZE - |chunk|) else content
  }

  /** A chunk recorded in a direct slot. */
  lemma StepDirect(c: Codec, disk: seq<Block>, inode: Inode, chunk: seq<byte>, f: int)
    requires Laid(c, disk, inode) && |inode.dataBlocks| < MAX_DIRECT_BLOCKS
    requires 0 < |chunk| <= BLOCK_SIZE && !AllZero(chunk)
    requires 0 <= f < |disk| && AllZero(disk[f])
    ensures FileContents(c, disk, inode).Ok?
    ensures var d1 := Put(disk, f, chunk);
      var inode' := inode.(dataBlocks := inode.dataBlocks + [f]);
      && Laid(c, d1, inode')
      && FileContents(c, d1, inode') == Ok(Grow(FileContents(c, disk, inode).value, chunk))
  {
    LaidContents(c, disk, inode);
    var content := FileContents(c, disk, inode).value;
    PutFreeKeeps(c, disk, inode, f, chunk);
    var d1 := Put(disk, f, chunk);
    CopyIntoZeroBlock(disk[f], chunk);
    var db := inode.dataBlocks;
    var inode' := inode.(dataBlocks := db + [f]);
    assert (db + [f])[..|db|] == db;
    assert Laid(c, d1, inode');
    assert FileContents(c, d1, inode') == Ok(Gather(d1, db) + d1[f]);
    assert FileContents(c, d1, inode) == Ok(Gather(d1, db));
    assert |content| < CAPACITY;
    assert content + chunk + Zeros(BLOCK_SIZE - |chunk|) == content + (chunk + Zeros(BLOCK_SIZE - |chunk|));
  }

  /** Allocating the indirect block if need be, then recording block f in
      it: a full disk is the only way to stop, and ReadFile gains block f
      while a slot is left. */
  lemma AllocThenRecord(c: Codec, d: seq<Block>, inode: Inode, f: int)
    requires Lawful(c) && ListsFit(c, |d|)
    requires Laid(c, d, inode) && |inode.dataBlocks| == MAX_DIRECT_BLOCKS
    requires InUse(d, f) && f != 0 && Unreferenced(c, d, inode, f)
    ensures FileContents(c, d, inode).Ok?
    ensures var a := AllocIndirect(c, d, inode);
      && (a.Halted? ==> a.fault == DiskFull)
      && (a.Running? ==>
            var r := RecordIndirect(c, a.disk, a.inode, f);
            var content := FileContents(c, d, inode).value;
            && r.Running?
            && |r.disk| == |d|
            && r.inode.indirectBlock != 0
            && Laid(c, r.disk, r.inode)
            && FileContents(c, r.disk, r.inode) ==
                 Ok(if |content| < CAPACITY then content + d[f] else content))
  {
    LaidContents(c, d, inode);
    AllocKeeps(c, d, inode, f);
    var a := AllocIndirect(c, d, inode);
    if a.Running? {
      RecordKeeps(c, a.disk, a.inode, f);
    }
  }

  /** A chunk written once the direct slots are full. */
  lemma StepIndirect(c: Codec, disk: seq<Block>, inode: Inode, chunk: seq<byte>, f: int)
    requires Lawful(c) && ListsFit(c, |disk|)
    requires Laid(c, disk, inode) && |inode.dataBlocks| == MAX_DIRECT_BLOCKS
    requires 0 < |chunk| <= BLOCK_SIZE && !AllZero(chunk)
    requires 0 <= f < |disk| && AllZero(disk[f])
    ensures FileContents(c, disk, inode).Ok?
    ensures var d1 := Put(disk, f, chunk);
      var a := AllocIndirect(c, d1, inode);
      && (a.Halted? ==> a.fault == DiskFull)
      && (a.Running? ==>
            var r := RecordIndirect(c, a.disk, a.inode, f);
            && r.Running?
            && |r.disk| == |disk|
            && r.inode.indirectBlock != 0
            && Laid(c, r.disk, r.inode)
            && FileContents(c, r.disk, r.inode) == Ok(Grow(FileContents(c, disk, inode).value, chunk)))
  {
    LaidContents(c, disk, inode);
    PutFreeKeeps(c, disk, inode, f, chunk);
    var d1 := Put(disk, f, chunk);
    CopyIntoZeroBlock(disk[f], chunk);
    assert d1[f] == chunk + Zeros(BLOCK_SIZE - |chunk|);
    assert f != 0;
    AllocThenRecord(c, d1, inode, f);
    var content := FileContents(c, disk, inode).value;
    assert FileContents(c, d1, inode).value == content;
    assert Grow(content, chunk) == if |content| < CAPACITY then content + d1[f] else content;
  }

  /** One pass of WriteFile's loop over a laid-out inode: it stops only for a
      full disk; otherwise the layout is kept, ReadFile gains the padded chunk
      while a slot is left and is unchanged after, and the indirect block
      exists from the pass that finds the direct slots full. */
  lemma StepKeepsLayout(c: Codec, disk: seq<Block>, inode: Inode, chunk: seq<byte>)
    requires Lawful(c) && ListsFit(c, |disk|) && Laid(c, disk, inode)
    requires 0 < |chunk| <= BLOCK_SIZE && !AllZero(chunk)
    ensures FileContents(c, disk, inode).Ok?
    ensures var r := WriteChunk(c, disk, inode, chunk);
      && (r.Halted? ==> r.fault == DiskFull)
      && (r.Running? ==>
            && |r.disk| == |disk|
            && Laid(c, r.disk, r.inode)
            && FileContents(c, r.disk, r.inode) == Ok(Grow(FileContents(c, disk, inode).value, chunk))
            && (r.inode.indirectBlock != 0 <==>
                  inode.indirectBlock != 0 || |inode.dataBlocks| == MAX_DIRECT_BLOCKS))
  {
    LaidContents(c, disk, inode);
    var f := FirstFree(disk);
    if f >= 0 {
      if |inode.dataBlocks| < MAX_DIRECT_BLOCKS {
        StepDirect(c, disk, inode, chunk, f);
      } else {
        StepIndirect(c, disk, inode, chunk, f);
      }
    }
  }

  /** The data WriteFile writes from `start` on, each chunk padded to a
      whole block. */
  function PadFrom(data: seq<byte>, start: nat): seq<byte>
    decreases |data| - start
  {
    if start >= |data| then []
    else var chunk := Chunk(data, start);
      chunk + Zeros(BLOCK_SIZE - |chunk|) + PadFrom(data, start + BLOCK_SIZE)
  }

  /** At most the first four blocks' worth. */
  function Cap(s: seq<byte>): seq<byte>
  {
    if |s| <= CAPACITY then s else s[..CAPACITY]
  }

  /** The number of zero bytes that pad n bytes to a whole block. */
  function PadLength(n: nat): nat
  {
    (BLOCK_SIZE - n % BLOCK_SIZE) % BLOCK_SIZE
  }

  lemma PadLengthShift(n: nat)
    requires n >= BLOCK_SIZE
    ensures PadLength(n - BLOCK_SIZE) == PadLength(n)
  {
    assert (n - BLOCK_SIZE) % BLOCK_SIZE == n % BLOCK_SIZE;
  }

  lemma PadLengthLast(n: nat)
    requires 0 < n <= BLOCK_SIZE
    ensures PadLength(n) == BLOCK_SIZE - n
  {
    if n < BLOCK_SIZE {
      assert n % BLOCK_SIZE == n;
    }
  }

  lemma {:induction false} PadFromIsPadded(data: seq<byte>, start: nat)
    requires start <= |data|
    ensures PadFrom(data, start) == data[start..] + Zeros(PadLength(|data| - start))
    decreases |data| - start
  {
    if start < |data| {
      var end := ChunkEnd(data, start);
      var chunk := data[start..end];
      if end < |data| {
        PadFromIsPadded(data, end);
        PadLengthShift(|data| - start);
        var z := Zeros(PadLength(|data| - start));
        assert Zeros(BLOCK_SIZE - |chunk|) == [];
        assert PadFrom(data, start) == chunk + (data[end..] + z);
        assert data[start..] == chunk + data[end..];
      } else {
        PadLengthLast(|data| - start);
        assert data[start..] == chunk;
        assert PadFrom(data, start) == chunk + Zeros(BLOCK_SIZE - |chunk|) + [];
      }
    } else {
      assert data[start..] == [];
      assert PadLength(0) == 0;
    }
  }

  lemma CapGrow(content: seq<byte>, chunk: seq<byte>, rest: seq<byte>)
    requires |content| <= CAPACITY && |chunk| <= BLOCK_SIZE
    ensures Cap(Grow(content, chunk) + rest) == Cap(content + (chunk + Zeros(BLOCK_SIZE - |chunk|) + rest))
  {
    if |content| < CAPACITY {
      assert content + chunk + Zeros(BLOCK_SIZE - |chunk|) + rest
          == content + (chunk + Zeros(BLOCK_SIZE - |chunk|) + rest);
    } else {
      assert (content + rest)[..CAPACITY] == content;
      assert (content + (chunk + Zeros(BLOCK_SIZE - |chunk|) + rest))[..CAPACITY] == content;
    }
  }

  /** WriteFile's loop from `start` on, over a laid-out inode. */
  lemma {:induction false} WriteChunksKeepLayout(c: Codec, disk: seq<Block>, inode: Inode, data: seq<byte>, start: nat)
    requires Lawful(c) && ListsFit(c, |disk|) && Laid(c, disk, inode)
    requires NoZeroChunks(data, start)
    ensures FileContents(c, disk, inode).Ok?
    ensures var r := WriteChunks(c, disk, inode, data, start);
      && (r.Halted? ==> r.fault == DiskFull)
      && (r.Running? ==>
            && FileContents(c, r.disk, r.inode) == Ok(Cap(FileContents(c, disk, inode).value + PadFrom(data, start)))
            && (r.inode.indirectBlock != 0 <==>
                  inode.indirectBlock != 0 || |inode.dataBlocks| + Chunks(data, start) > MAX_DIRECT_BLOCKS))
    decreases |data| - start
  {
    LaidContents(c, disk, inode);
    var content := FileContents(c, disk, inode).value;
    if start < |data| {
      var chunk := Chunk(data, start);
      StepKeepsLayout(c, disk, inode, chunk);
      WriteChunkShape(c, disk, inode, chunk);
      var w := WriteChunk(c, disk, inode, chunk);
      if w.Running? {
        WriteChunksKeepLayout(c, w.disk, w.inode, data, start + BLOCK_SIZE);
        CapGrow(content, chunk, PadFrom(data, start + BLOCK_SIZE));
      }
    } else {
      assert content + [] == content;
    }
  }

  /** WriteFile on a fresh inode (no blocks yet) followed by ReadFile: the
      write stops only when the disk is full; otherwise ReadFile returns the
      data followed by zeros up to a block boundary, cut after four blocks
      (the chunks beyond are written to the disk but recorded nowhere), the
      direct list holds min(3, chunks) blocks, and an indirect block is
      allocated exactly when the data is longer than three blocks. */
  lemma WriteFileThenReadFile(c: Codec, disk: seq<Block>, inode: Inode, data: seq<byte>)
    requires Lawful(c) && ListsFit(c, |disk|)
    requires InUse(disk, 0)
    requires inode.dataBlocks == [] && inode.indirectBlock == 0
    requires NoZeroChunks(data, 0)
    ensures var r := WriteChunks(c, disk, inode, data, 0);
      && (r.Halted? ==> r.fault == DiskFull)
      && (r.Running? ==>
            && FileContents(c, r.disk, r.inode) == Ok(Cap(data + Zeros(PadLength(|data|))))
            && |r.inode.dataBlocks| == Min(MAX_DIRECT_BLOCKS, (|data| + BLOCK_SIZE - 1) / BLOCK_SIZE)
            && (r.inode.indirectBlock != 0 <==> |data| > MAX_DIRECT_BLOCKS * BLOCK_SIZE))
  {
    assert Laid(c, disk, inode);
    WriteChunksKeepLayout(c, disk, inode, data, 0);
    WriteChunksShape(c, disk, inode, data, 0);
    PadFromIsPadded(data, 0);
    ChunksCount(data, 0);
    assert FileContents(c, disk, inode) == Ok([]);
    assert data[0..] == data;
    assert FileContents(c, disk, inode).value + PadFrom(data, 0) == data + Zeros(PadLength(|data|));
  }
}
