/** The virtual disk: a fixed number of 1024-byte blocks, and Go's `copy`
    into one of them. */
module Disk {

  newtype byte = x: int | 0 <= x < 256

  const BLOCK_SIZE: nat := 1024
  const DISK_SIZE: nat := 6 * 1024 * 1024
  const NUM_BLOCKS: nat := DISK_SIZE / BLOCK_SIZE

  function Zeros(n: nat): (z: seq<byte>)
    ensures |z| == n
    ensures forall i :: 0 <= i < n ==> z[i] == 0
  {
    seq(n, _ => 0)
  }

  /** One block of the disk; Go's `[BLOCK_SIZE]byte`, a value type. */
  type Block = s: seq<byte> | |s| == BLOCK_SIZE witness Zeros(BLOCK_SIZE)

  predicate AllZero(s: seq<byte>)
  {
    forall i :: 0 <= i < |s| ==> s[i] == 0
  }

  /** Go's `copy(dst[:], src)`: the first min(|dst|, |src|) bytes of `dst`
      are replaced by those of `src`; the rest of `dst` is left as it was and
      whatever does not fit of `src` is dropped. */
  function CopyInto(dst: seq<byte>, src: seq<byte>): (r: seq<byte>)
    ensures |r| == |dst|
    ensures |src| <= |dst| ==> r[..|src|] == src && r[|src|..] == dst[|src|..]
    ensures |src| > |dst| ==> r == src[..|dst|]
  {
    if |src| >= |dst| then src[..|dst|] else src + dst[|src|..]
  }

  /** The disk after `copy(VirtualDisk[b][:], bytes)`. */
  function Put(disk: seq<Block>, b: int, bytes: seq<byte>): (d: seq<Block>)
    requires 0 <= b < |disk|
    ensures |d| == |disk|
    ensures d[b] == CopyInto(disk[b], bytes)
    ensures forall j :: 0 <= j < |disk| && j != b ==> d[j] == disk[j]
  {
    disk[b := CopyInto(disk[b], bytes)]
  }

  /** Copying a chunk into a block that is all zero leaves the chunk followed
      by zero padding. */
  lemma CopyIntoZeroBlock(dst: seq<byte>, src: seq<byte>)
    requires AllZero(dst) && |src| <= |dst|
    ensures CopyInto(dst, src) == src + Zeros(|dst| - |src|)
  {
    var r := CopyInto(dst, src);
    assert r[|src|..] == Zeros(|dst| - |src|);
    assert r == r[..|src|] + r[|src|..];
  }

  /** A block that received bytes with a non-zero byte among them, all of
      which fit, is not all zero afterwards. */
  lemma CopyIntoNotZero(dst: seq<byte>, src: seq<byte>)
    requires !AllZero(src) && |src| <= |dst|
    ensures !AllZero(CopyInto(dst, src))
  {
    var k :| 0 <= k < |src| && src[k] != 0;
    var r := CopyInto(dst, src);
    assert r[..|src|][k] == src[k];
  }

  /** Copying the same bytes twice is the same as copying them once. */
  lemma CopyIntoTwice(dst: seq<byte>, src: seq<byte>)
    ensures CopyInto(CopyInto(dst, src), src) == CopyInto(dst, src)
  {
  }
}
