/** The on-disk layout of an xv6 file system image: the format constants
    of fs.h and the address arithmetic the checker performs with them
    (the Layout Accessor). fs.h itself is not part of this model; the
    constants carry xv6's values, written as literals. In fs.h they derive
    from one another: NINDIRECT = BSIZE / 4, IPB = BSIZE / DINODE_SIZE,
    BPB = BSIZE * 8, DIRENT_SIZE = 2 + DIRSIZ and DPB = BSIZE / DIRENT_SIZE. */
module FsLayout {

  /** Block size in bytes. */
  const BSIZE: nat := 512
  /** Direct block addresses per inode; `addrs[NDIRECT]` is the indirect one. */
  const NDIRECT: nat := 12
  /** Block addresses held by one indirect block (4-byte `uint` each). */
  const NINDIRECT: nat := 128
  /** Size of an on-disk inode record. */
  const DINODE_SIZE: nat := 64
  /** Inodes per block. */
  const IPB: nat := 8
  /** Bitmap bits per block. */
  const BPB: nat := 4096
  /** Inode number of the root directory. */
  const ROOTINO: nat := 1
  /** Length of the name field of a directory entry. */
  const DIRSIZ: nat := 14
  /** Size of a directory entry: a 2-byte inode number and the name. */
  const DIRENT_SIZE: nat := 16
  /** Directory entries per block. */
  const DPB: nat := 32

  /** Inode types. Type 0 is a free inode. */
  const T_DIR: int := 1
  const T_FILE: int := 2
  const T_DEV: int := 3

  /** Block of the bitmap that holds the bit for block `b` (BBLOCK). */
  function BBlock(b: nat, ninodes: nat): nat
  {
    b / BPB + ninodes / IPB + 3
  }

  /** Byte offset of the start of block `blocknum` (getBlock): block
      `blocknum` starts exactly `blocknum` whole blocks into the image. */
  function GetBlock(blocknum: nat): (off: nat)
    ensures off % BSIZE == 0 && off / BSIZE == blocknum
  {
    blocknum * BSIZE
  }

  /** Byte offset of the bitmap byte holding the bit of block `b`; it lies
      inside bitmap block BBLOCK(b). */
  function BitmapByteOffset(b: nat, ninodes: nat): (off: nat)
    ensures GetBlock(BBlock(b, ninodes)) <= off < GetBlock(BBlock(b, ninodes)) + BSIZE
  {
    GetBlock(BBlock(b, ninodes)) + (b % BPB) / 8
  }

  /** Index of the bit of block `b` inside its bitmap byte. */
  function BitmapBitIndex(b: nat): (k: nat)
    ensures k < 8
  {
    (b % BPB) % 8
  }

  /** Distinct blocks have distinct bitmap bits: the byte offset and the bit
      index together determine the block number. */
  lemma BitmapPositionDeterminesBlock(b1: nat, b2: nat, ninodes: nat)
    requires BitmapByteOffset(b1, ninodes) == BitmapByteOffset(b2, ninodes)
    requires BitmapBitIndex(b1) == BitmapBitIndex(b2)
    ensures b1 == b2
  {
    var off := BitmapByteOffset(b1, ninodes);
    var c := ninodes / IPB + 3;
    assert off == (b1 / BPB + c) * BSIZE + (b1 % BPB) / 8;
    assert off == (b2 / BPB + c) * BSIZE + (b2 % BPB) / 8;
    assert off / BSIZE == b1 / BPB + c && off % BSIZE == (b1 % BPB) / 8;
    assert off / BSIZE == b2 / BPB + c && off % BSIZE == (b2 % BPB) / 8;
    assert b1 % BPB == 8 * ((b1 % BPB) / 8) + (b1 % BPB) % 8;
    assert b2 % BPB == 8 * ((b2 % BPB) / 8) + (b2 % BPB) % 8;
    assert b1 == BPB * (b1 / BPB) + b1 % BPB;
    assert b2 == BPB * (b2 / BPB) + b2 % BPB;
  }

  /** A cursor that advances `i` entries from the start of block `b` (the
      checker's `de++`) lands in block `b + i / DPB`, at slot `i % DPB`:
      it runs on into the physically next blocks. */
  lemma CursorCrossesBlocks(b: nat, i: nat)
    ensures GetBlock(b) + i * DIRENT_SIZE == GetBlock(b + i / DPB) + (i % DPB) * DIRENT_SIZE
    ensures (i % DPB) * DIRENT_SIZE + DIRENT_SIZE <= BSIZE
  {
    assert i == DPB * (i / DPB) + i % DPB;
    assert GetBlock(b + i / DPB) == b * BSIZE + (i / DPB) * BSIZE;
    assert (i / DPB) * BSIZE == (i / DPB) * DPB * DIRENT_SIZE;
  }
}
