/** Bytes, and the sectors of the block device that they make up. */
module Blocks {
  newtype byte = x: int | 0 <= x < 256

  const BLOCK_SECTOR_SIZE: nat := 512

  type Sector = s: seq<byte> | |s| == BLOCK_SECTOR_SIZE witness seq(BLOCK_SECTOR_SIZE, _ => 0)

  /** d with src copied over the bytes from ofs on. */
  function Overwrite<T>(d: seq<T>, ofs: nat, src: seq<T>): (r: seq<T>)
    requires ofs + |src| <= |d|
    ensures |r| == |d|
    ensures forall i :: 0 <= i < |d| ==> r[i] == if ofs <= i < ofs + |src| then src[i - ofs] else d[i]
  {
    d[..ofs] + src + d[ofs + |src|..]
  }
}
