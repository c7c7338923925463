/** Composite block ids and the division of a file into blocks, at the widths of the C++ integers. */
module BlockIds {
  import opened Common

  /** Inode ids have 40 bits in a block id, block indices 24. */
  const INODE_SPAN := 0x100_0000_0000
  const INDEX_SPAN := 0x100_0000

  /** Shifting left by 24 keeps the low 40 bits of the inode id; the low bits then are the masked index. */
  function MakeBlockId(inode: uint64, index: uint32): uint64
  {
    inode % 0x100_0000_0000 * 0x100_0000 + index % 0x100_0000
  }

  function GetInodeId(block: uint64): uint64
  {
    block / 0x100_0000
  }

  function GetBlockIndex(block: uint64): uint32
  {
    block % 0x100_0000
  }

  /** Taking a block id apart gives back what it was made of exactly for inodes and indices in range. */
  lemma BlockIdRoundTrip(inode: uint64, index: uint32)
    ensures var b := MakeBlockId(inode, index);
            GetInodeId(b) == inode && GetBlockIndex(b) == index <==> inode < INODE_SPAN && index < INDEX_SPAN
  {
    var i, k := inode % 0x100_0000_0000, index % 0x100_0000;
    assert (i * 0x100_0000 + k) / 0x100_0000 == i && (i * 0x100_0000 + k) % 0x100_0000 == k;
  }

  /** Every 64-bit value is the block id of one in-range pair. */
  lemma BlockIdsCover(block: uint64)
    ensures MakeBlockId(GetInodeId(block), GetBlockIndex(block)) == block
    ensures GetInodeId(block) < INODE_SPAN && GetBlockIndex(block) < INDEX_SPAN
  {
  }

  /** Two pairs share a block id exactly when they agree on the bits that fit. */
  lemma BlockIdsCollide(a: uint64, i: uint32, b: uint64, j: uint32)
    ensures MakeBlockId(a, i) == MakeBlockId(b, j) <==> a % INODE_SPAN == b % INODE_SPAN && i % INDEX_SPAN == j % INDEX_SPAN
  {
    BlockIdRoundTrip(a % 0x100_0000_0000, i % 0x100_0000);
    BlockIdRoundTrip(b % 0x100_0000_0000, j % 0x100_0000);
  }

  // ---------- Blocks of a file ----------

  /** The number of blocks, without any rounding to machine words. */
  function Ceiling(size: nat, blockSize: nat): nat
    requires blockSize > 0
  {
    (size + blockSize - 1) / blockSize
  }

  function GetBlockCount(size: uint64, blockSize: uint64): uint32
    requires blockSize > 0
  {
    if size == 0 then 0
    else (size + blockSize - 1) % 0x1_0000_0000_0000_0000 / blockSize % 0x1_0000_0000
  }

  function GetBlockLength(size: uint64, index: uint32, blockSize: uint64): uint64
  {
    var start := index * blockSize % 0x1_0000_0000_0000_0000;
    if start >= size then 0 else Min(blockSize, size - start)
  }

  lemma CeilingBounds(size: nat, blockSize: nat)
    requires blockSize > 0
    ensures var n := Ceiling(size, blockSize);
            size <= n * blockSize < size + blockSize && (n == 0 <==> size == 0)
  {
    var q, r := (size + blockSize - 1) / blockSize, (size + blockSize - 1) % blockSize;
    assert size + blockSize - 1 == q * blockSize + r && 0 <= r < blockSize;
    assert q == 0 ==> q * blockSize == 0;
    assert q > 0 ==> q * blockSize >= blockSize;
  }

  lemma QuotientBelow(x: nat, y: nat, d: nat)
    requires 0 < d <= y - x
    ensures x / d < y / d
  {
    var p, q := x / d, y / d;
    assert x == p * d + x % d && y == q * d + y % d;
    assert q <= p ==> q * d <= p * d;
  }

  /** The count before it is cut to 32 bits falls short exactly when the sum overflows. */
  lemma CountBeforeCut(size: uint64, blockSize: uint64) returns (q: nat)
    requires blockSize > 0 && size > 0
    ensures GetBlockCount(size, blockSize) == q % 0x1_0000_0000 && q <= Ceiling(size, blockSize)
    ensures q == Ceiling(size, blockSize) <==> size + blockSize - 1 < 0x1_0000_0000_0000_0000
  {
    var top := size + blockSize - 1;
    if top < 0x1_0000_0000_0000_0000 {
      q := top / blockSize;
    } else {
      var low := top - 0x1_0000_0000_0000_0000;
      q := low / blockSize;
      QuotientBelow(low, top, blockSize);
    }
  }

  /** The count is the number of blocks exactly when neither the sum nor the count overflows. */
  lemma CountIsCeiling(size: uint64, blockSize: uint64)
    requires blockSize > 0
    ensures GetBlockCount(size, blockSize) == Ceiling(size, blockSize) <==>
            size == 0 || (size + blockSize - 1 < 0x1_0000_0000_0000_0000 && Ceiling(size, blockSize) < 0x1_0000_0000)
  {
    hide Ceiling, GetBlockCount;
    if size == 0 {
      CeilingBounds(size, blockSize);
      NoBlocks(blockSize);
    } else {
      var q := CountBeforeCut(size, blockSize);
      Truncated(q, Ceiling(size, blockSize));
    }
  }

  lemma NoBlocks(blockSize: uint64)
    requires blockSize > 0
    ensures GetBlockCount(0, blockSize) == 0
  {
  }

  lemma Truncated(q: nat, n: nat)
    requires q <= n
    ensures q % 0x1_0000_0000 == n <==> q == n && n < 0x1_0000_0000
  {
  }

  function SumLengths(size: uint64, n: uint32, blockSize: uint64): nat
    decreases n
  {
    if n == 0 then 0 else SumLengths(size, n - 1, blockSize) + GetBlockLength(size, n - 1, blockSize)
  }

  lemma LengthOf(size: uint64, index: uint32, blockSize: uint64)
    requires blockSize > 0 && index < Ceiling(size, blockSize)
    ensures index * blockSize < size && GetBlockLength(size, index, blockSize) == Min(blockSize, size - index * blockSize)
  {
    hide Ceiling;
    CeilingBounds(size, blockSize);
    NextMultiple(index, Ceiling(size, blockSize), blockSize);
    var start := index * blockSize;
    assert start % 0x1_0000_0000_0000_0000 == start;
  }

  lemma NextMultiple(i: nat, n: nat, d: nat)
    requires i < n
    ensures i * d + d == (i + 1) * d <= n * d
  {
  }

  lemma {:induction false} SumOfFirst(size: uint64, n: uint32, blockSize: uint64)
    requires blockSize > 0 && n <= Ceiling(size, blockSize)
    ensures SumLengths(size, n, blockSize) == Min(n * blockSize, size)
    decreases n
  {
    if n > 0 {
      SumOfFirst(size, n - 1, blockSize);
      LengthOf(size, n - 1, blockSize);
      assert n * blockSize == (n - 1) * blockSize + blockSize;
    }
  }

  /** The block lengths add up to the file size; every counted block but the last is full, and none is empty. */
  lemma LengthsCoverFile(size: uint64, blockSize: uint64)
    requires blockSize > 0 && GetBlockCount(size, blockSize) == Ceiling(size, blockSize)
    ensures SumLengths(size, GetBlockCount(size, blockSize), blockSize) == size
    ensures forall i: uint32 | i < GetBlockCount(size, blockSize) ::
              && 0 < GetBlockLength(size, i, blockSize) <= blockSize
              && (i + 1 < GetBlockCount(size, blockSize) ==> GetBlockLength(size, i, blockSize) == blockSize)
  {
    var n := GetBlockCount(size, blockSize);
    SumOfFirst(size, n, blockSize);
    CeilingBounds(size, blockSize);
    forall i: uint32 | i < n
      ensures 0 < GetBlockLength(size, i, blockSize) <= blockSize
      ensures i + 1 < n ==> GetBlockLength(size, i, blockSize) == blockSize
    {
      LengthOf(size, i, blockSize);
      if i + 1 < n {
        LengthOf(size, i + 1, blockSize);
        assert (i + 1) * blockSize == i * blockSize + blockSize;
      }
    }
  }
}
