/** xdelta3.h: a source file cut into blocks of one size. */
module Blocks {
  import opened Bytes
  import Arith

  /** The bytes of a block; the last one may be short. */
  function Block(data: seq<byte>, blksize: nat, b: nat): (s: seq<byte>)
    ensures |s| <= blksize
  {
    Arith.Product(b, blksize);
    data[Min(b * blksize, |data|)..Min(b * blksize + blksize, |data|)]
  }

  /** A range of one block seen as a range of the file. */
  lemma BlockSlice(file: seq<byte>, blksize: nat, addr: nat, take: nat)
    requires blksize > 0
    ensures addr / blksize >= 0
    ensures var off, b := addr % blksize, Block(file, blksize, addr / blksize);
      && (off + take <= |b| && take > 0 ==> addr + take <= |file| && b[off..off + take] == file[addr..addr + take])
      && (|b| != blksize && off + take > |b| ==> addr + take > |file|)
  {
    Arith.QuotientAtLeast(addr, 0, blksize);
    var blkno, off := addr / blksize, addr % blksize;
    assert addr == blkno * blksize + off;
    SliceOfSlice(file, blkno * blksize, off, take, blksize);
  }

  lemma SliceOfSlice(file: seq<byte>, lo: nat, off: nat, take: nat, size: nat)
    requires off < size
    ensures var b := file[Min(lo, |file|)..Min(lo + size, |file|)];
      && (off + take <= |b| && take > 0 ==>
            lo + off + take <= |file| && b[off..off + take] == file[lo + off..lo + off + take])
      && (|b| != size && off + take > |b| ==> lo + off + take > |file|)
  {
    var start, end := Min(lo, |file|), Min(lo + size, |file|);
    var b := file[start..end];
    if off + take <= |b| && take > 0 {
      assert start == lo;
      forall k | off <= k < off + take ensures b[k] == file[lo + k] {
      }
      assert b[off..off + take] == file[lo + off..lo + off + take];
    }
  }
}
