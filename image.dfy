/** The file system image as the checker sees it: the superblock and the
    inode table already decoded, and the image's bytes, from which directory
    entries, indirect blocks and bitmap bytes are decoded at the byte
    offsets the checker computes. Reads past the end of the image yield
    zero bytes. */
module FsImage {
  import opened FsLayout

  /** The superblock fields the checker uses. */
  datatype Superblock = Superblock(size: nat, nblocks: nat, ninodes: nat)

  /** An on-disk inode: type, link count, size in bytes and the NDIRECT
      direct addresses followed by the indirect address. */
  datatype DInode = DInode(itype: int, nlink: int, size: nat, addrs: seq<nat>)

  /** An unsigned 8-bit byte. */
  newtype byte = x: int | 0 <= x < 0x100

  datatype Image = Image(sb: Superblock, dinodes: seq<DInode>, bytes: seq<byte>)

  /** A decoded directory entry; `name` is the C string held in the name
      field (the bytes before the first NUL). */
  datatype DirEnt = DirEnt(inum: nat, name: seq<byte>)

  /** The inode table holds `ninodes` inodes, each with NDIRECT + 1 addresses. */
  predicate WellFormed(img: Image)
  {
    |img.dinodes| == img.sb.ninodes &&
    forall i :: 0 <= i < |img.dinodes| ==> |img.dinodes[i].addrs| == NDIRECT + 1
  }

  function ByteAt(img: Image, off: nat): byte
  {
    if off < |img.bytes| then img.bytes[off] else 0
  }

  /** The byte at offset `off` as an unsigned number. */
  function ByteVal(img: Image, off: nat): (v: nat)
    ensures v < 0x100
  {
    ByteAt(img, off) as nat
  }

  /** The little-endian 32-bit unsigned word at byte offset `off`. */
  function WordAt(img: Image, off: nat): (w: nat)
    ensures w < 0x1_0000_0000
  {
    ByteVal(img, off) + 0x100 * (ByteVal(img, off + 1) + 0x100 * (ByteVal(img, off + 2) + 0x100 * ByteVal(img, off + 3)))
  }

  /** Entry `x` of the indirect block numbered `ind`. */
  function IndirectEntry(img: Image, ind: nat, x: nat): nat
  {
    WordAt(img, GetBlock(ind) + 4 * x)
  }

  /** The C string held in the `n`-byte field at offset `off`: the bytes
      before the first NUL, or all `n` bytes when there is none. */
  function CStringAt(img: Image, off: nat, n: nat): (r: seq<byte>)
    ensures |r| <= n
    decreases n
  {
    if n == 0 || ByteVal(img, off) == 0 then [] else [ByteVal(img, off) as byte] + CStringAt(img, off + 1, n - 1)
  }

  /** CStringAt reads the field's bytes up to, and not including, the first
      NUL; it stops early only at a NUL. */
  lemma {:induction false} CStringAtBytes(img: Image, off: nat, n: nat)
    ensures 0 !in CStringAt(img, off, n)
    ensures forall j :: 0 <= j < |CStringAt(img, off, n)| ==> CStringAt(img, off, n)[j] as int == ByteVal(img, off + j)
    ensures |CStringAt(img, off, n)| < n ==> ByteVal(img, off + |CStringAt(img, off, n)|) == 0
    decreases n
  {
    if n > 0 && ByteVal(img, off) != 0 {
      CStringAtBytes(img, off + 1, n - 1);
    }
  }

  /** The directory entry at byte offset `off`: a 2-byte little-endian inode
      number followed by a DIRSIZ-byte name field. */
  function DirEntAt(img: Image, off: nat): (e: DirEnt)
    ensures e.inum < 0x1_0000 && |e.name| <= DIRSIZ
  {
    DirEnt(ByteVal(img, off) + 0x100 * ByteVal(img, off + 1), CStringAt(img, off + 2, DIRSIZ))
  }

  /** The names "." and "..". */
  predicate IsDot(e: DirEnt) { e.name == [0x2E] }
  predicate IsDotDot(e: DirEnt) { e.name == [0x2E, 0x2E] }

  function Pow2(k: nat): (p: nat)
    ensures p > 0
  {
    if k == 0 then 1 else 2 * Pow2(k - 1)
  }

  /** Bit `k` of byte `x`, counted from the least significant bit. */
  predicate BitOf(x: int, k: nat)
  {
    (x / Pow2(k)) % 2 == 1
  }

  /** isBlockUsed: the bitmap bit of block `b` is set. The function tests it
      with the checker's mask `1 << k`; the contract says that this is bit
      `(b % BPB) % 8` of byte `(b % BPB) / 8` of bitmap block BBLOCK(b). */
  function IsBlockUsed(img: Image, b: nat): (used: bool)
    ensures used <==> BitOf(ByteVal(img, BitmapByteOffset(b, img.sb.ninodes)), (b % BPB) % 8)
  {
    var x := ByteAt(img, BitmapByteOffset(b, img.sb.ninodes));
    var mask := (1 as bv8) << BitmapBitIndex(b);
    MaskTestIsBit(x, BitmapBitIndex(b), mask);
    (Bits(x) & mask) != 0
  }

  /** Byte `x` as an 8-bit vector: bit `k` of the vector is bit `k` of `x`. */
  function Bits(x: byte): bv8
  {
    (if BitOf(x as int, 0) then 1 else 0) | (if BitOf(x as int, 1) then 2 else 0)
    | (if BitOf(x as int, 2) then 4 else 0) | (if BitOf(x as int, 3) then 8 else 0)
    | (if BitOf(x as int, 4) then 16 else 0) | (if BitOf(x as int, 5) then 32 else 0)
    | (if BitOf(x as int, 6) then 64 else 0) | (if BitOf(x as int, 7) then 128 else 0)
  }

  /** Testing byte `x` against the mask `1 << k` reads bit `k` of `x`. */
  lemma MaskTestIsBit(x: byte, k: nat, m: bv8)
    requires k < 8 && m == (1 as bv8) << k
    ensures ((Bits(x) & m) != 0) <==> BitOf(x as int, k)
  {
  }
}
