/** ext4 inode location: the direct route to one inode and the bulk route through its group's inode table. */
module Ext4Inodes {
  import opened Machine
  import opened Evidence

  datatype Superblock = Superblock(inodesCount: U32, inodesPerGroup: U32, inodeSize: U16, blockSize: U32)

  /** `tables[g]` is the block where the inode table of group g begins. */
  datatype Ext4Filesystem = Ext4Filesystem(superblock: Superblock, tables: seq<U64>, partitionOffset: U64) {

    // ----- the locator -----

    function GroupForInode(inode: U32): Result<U32> {
      if inode == 0 || superblock.inodesPerGroup == 0 then Err(InvalidFormat)
      else Ok(Quotient(inode - 1, superblock.inodesPerGroup))
    }

    function IndexInGroup(inode: U32): Result<U32> {
      if inode == 0 || superblock.inodesPerGroup == 0 then Err(InvalidFormat)
      else Ok(Remainder(inode - 1, superblock.inodesPerGroup))
    }

    function InodeOffset(inode: U32, tableBlock: U64): Result<U64> {
      var index :- IndexInGroup(inode);
      if superblock.blockSize == 0 then Err(InvalidFormat)
      else
        match (CheckedMul(index, superblock.inodeSize), CheckedMul(tableBlock, superblock.blockSize))
        case (Some(inside), Some(table)) =>
          (match CheckedAdd(table, inside)
           case Some(offset) => Ok(offset)
           case None => Err(InvalidFormat))
        case _ => Err(InvalidFormat)
    }

    function InodeBlock(inode: U32, tableBlock: U64): Result<U64> {
      var offset :- InodeOffset(inode, tableBlock);
      if superblock.blockSize == 0 then Err(InvalidFormat) else Ok(Quotient64(offset, superblock.blockSize))
    }

    /** Computed without the table's position. */
    function OffsetInsideBlock(inode: U32): Result<U64> {
      var index :- IndexInGroup(inode);
      if superblock.blockSize == 0 then Err(InvalidFormat)
      else
        match CheckedMul(index, superblock.inodeSize)
        case Some(inside) => Ok(Remainder64(inside, superblock.blockSize))
        case None => Err(InvalidFormat)
    }

    // ----- the direct route -----

    function LocateInode(inode: U32): Result<U64> {
      if inode == 0 || inode > superblock.inodesCount || !ValidInodeSize(superblock.inodeSize) then Err(InvalidFormat)
      else
        var group :- GroupForInode(inode);
        if group >= |tables| then Err(InvalidFormat) else InodeOffset(inode, tables[group])
    }

    function ReadInode(img: Image, inode: U32): Result<seq<Byte>> {
      var offset :- LocateInode(inode);
      match CheckedAdd(partitionOffset, offset)
      case None => Err(InvalidFormat)
      case Some(absolute) => ReadAt(img, absolute, superblock.inodeSize)
    }

    // ----- the bulk route -----

    function TableBytes(): Option<U64>
      requires superblock.blockSize > 0
    {
      match CheckedMul(superblock.inodesPerGroup, superblock.inodeSize)
      case None => None
      case Some(bytes) =>
        var blocks := DivCeil(bytes, superblock.blockSize);
        if blocks < U64_LIMIT then CheckedMul(blocks, superblock.blockSize) else None
    }

    /** The inode table of a group, rounded up to whole blocks. */
    function ReadInodeTable(img: Image, tableBlock: U64): Result<seq<Byte>> {
      if superblock.blockSize == 0 || superblock.inodeSize == 0 || superblock.inodesPerGroup == 0 then
        Err(InvalidFormat)
      else
        match (TableBytes(), CheckedMul(tableBlock, superblock.blockSize))
        case (Some(size), Some(relative)) =>
          (match CheckedAdd(partitionOffset, relative)
           case None => Err(InvalidFormat)
           case Some(offset) =>
             var data :- ReadAt(img, offset, size);
             ParseTable(data, superblock.inodeSize))
        case _ => Err(InvalidFormat)
    }
  }

  function Quotient(a: U32, b: U32): (q: U32) requires b > 0 { a / b }

  function Remainder(a: U32, b: U32): (r: U32) requires b > 0 { a % b }

  function Quotient64(a: U64, b: U64): (q: U64) requires b > 0 { a / b }

  function Remainder64(a: U64, b: U64): (r: U64) requires b > 0 { a % b }

  function ValidInodeSize(size: U16): bool {
    size in {128, 256, 512, 1024, 2048, 4096, 8192, 16384, 32768}
  }

  /** A table must hold whole slots. */
  function ParseTable(data: seq<Byte>, inodeSize: U16): Result<seq<Byte>> {
    if data == [] || inodeSize == 0 || inodeSize > |data| || |data| % inodeSize != 0 then Err(InvalidFormat)
    else Ok(data)
  }

  /** Slot `index` of a table. */
  function Slot(table: seq<Byte>, inodeSize: U16, index: nat): Result<seq<Byte>>
    requires inodeSize > 0
  {
    if index >= |table| / inodeSize then Err(InvalidFormat)
    else
      SlotFits(|table|, inodeSize, index);
      Ok(table[index * inodeSize..index * inodeSize + inodeSize])
  }

  lemma SlotFits(length: nat, size: nat, index: nat)
    requires size > 0 && index < length / size
    ensures 0 <= index * size && index * size + size <= length
  {
    MulMonotone(index + 1, length / size, size);
    MulNonNegative(index, size);
  }

  // ----- the two routes agree -----

  lemma DivisionIsUnique(n: int, d: int, q: int, r: int)
    requires d > 0 && n == q * d + r && 0 <= r < d
    ensures q == n / d && r == n % d
  {
    var q', r' := n / d, n % d;
    assert (q - q') * d == r' - r;
    if q > q' {
      MulMonotone(1, q - q', d);
    } else if q < q' {
      MulMonotone(1, q' - q, d);
    }
  }

  /** Group and index are a bijection between the inode numbers from 1 on and the pairs whose index is below the group
      size: they recover the number, and every pair comes from exactly one number. */
  lemma GroupAndIndexAreABijection(fs: Ext4Filesystem, inode: U32, group: nat, index: nat)
    requires fs.superblock.inodesPerGroup > 0 && inode > 0
    ensures fs.GroupForInode(inode).value * fs.superblock.inodesPerGroup + fs.IndexInGroup(inode).value + 1 == inode
    ensures fs.IndexInGroup(inode).value < fs.superblock.inodesPerGroup
    ensures index < fs.superblock.inodesPerGroup ==>
      (fs.GroupForInode(inode) == Ok(group) && fs.IndexInGroup(inode) == Ok(index)
       <==> inode == group * fs.superblock.inodesPerGroup + index + 1)
  {
    if index < fs.superblock.inodesPerGroup && inode == group * fs.superblock.inodesPerGroup + index + 1 {
      DivisionIsUnique(inode - 1, fs.superblock.inodesPerGroup, group, index);
    }
  }

  /** The byte offset is the containing block plus the offset inside it, although the latter ignores the table. */
  lemma OffsetSplits(fs: Ext4Filesystem, inode: U32, tableBlock: U64)
    requires fs.InodeOffset(inode, tableBlock).Ok?
    ensures fs.InodeBlock(inode, tableBlock).Ok? && fs.OffsetInsideBlock(inode).Ok?
    ensures fs.InodeOffset(inode, tableBlock).value
         == fs.InodeBlock(inode, tableBlock).value * fs.superblock.blockSize + fs.OffsetInsideBlock(inode).value
  {
    var bs := fs.superblock.blockSize;
    var inside := fs.IndexInGroup(inode).value * fs.superblock.inodeSize;
    var q, r := inside / bs, inside % bs;
    assert tableBlock * bs + inside == (tableBlock + q) * bs + r;
    DivisionIsUnique(tableBlock * bs + inside, bs, tableBlock + q, r);
  }

  /** Two inodes of one group never share a byte. */
  lemma SlotsAreDisjoint(fs: Ext4Filesystem, a: U32, b: U32, tableBlock: U64)
    requires fs.InodeOffset(a, tableBlock).Ok? && fs.InodeOffset(b, tableBlock).Ok?
    requires a < b && fs.GroupForInode(a) == fs.GroupForInode(b)
    ensures fs.InodeOffset(a, tableBlock).value + fs.superblock.inodeSize <= fs.InodeOffset(b, tableBlock).value
  {
    GroupAndIndexAreABijection(fs, a, 0, 0);
    GroupAndIndexAreABijection(fs, b, 0, 0);
    var i, j := fs.IndexInGroup(a).value, fs.IndexInGroup(b).value;
    MulMonotone(i + 1, j, fs.superblock.inodeSize);
  }

  /** Whenever the group's table can be read as a whole, reading an inode directly gives exactly its slot of the
      table. */
  lemma InodeRoutesAgree(fs: Ext4Filesystem, img: Image, inode: U32, group: U32, index: U32, table: seq<Byte>)
    requires 0 < inode <= fs.superblock.inodesCount && ValidInodeSize(fs.superblock.inodeSize)
    requires fs.GroupForInode(inode) == Ok(group) && fs.IndexInGroup(inode) == Ok(index)
    requires group < |fs.tables| && fs.ReadInodeTable(img, fs.tables[group]) == Ok(table)
    ensures fs.ReadInode(img, inode).Ok?
    ensures fs.ReadInode(img, inode) == Slot(table, fs.superblock.inodeSize, index)
  {
    var size := fs.superblock.inodeSize;
    var start := TableIsASlice(fs, img, fs.tables[group], table);
    TableHoldsTheGroup(fs, |table|, index);
    MulNonNegative(index, size);
    var at := index * size;
    DirectRead(fs, img, inode, fs.tables[group], index, start + at);
    SliceOfSlice(img, table, start, at, size);
  }

  lemma SliceOfSlice(img: Image, table: seq<Byte>, start: nat, at: nat, size: nat)
    requires start + |table| <= |img| && table == img[start..start + |table|] && at + size <= |table|
    ensures img[start + at..start + at + size] == table[at..at + size]
  {
    var a, b := img[start + at..start + at + size], table[at..at + size];
    forall i | 0 <= i < size ensures a[i] == b[i] {
      assert b[i] == img[start..start + |table|][at + i];
    }
  }

  lemma TableIsASlice(fs: Ext4Filesystem, img: Image, tableBlock: U64, table: seq<Byte>) returns (start: nat)
    requires fs.ReadInodeTable(img, tableBlock) == Ok(table)
    ensures fs.superblock.blockSize > 0 && fs.superblock.inodeSize > 0
    ensures start == fs.partitionOffset + tableBlock * fs.superblock.blockSize
    ensures fs.TableBytes() == Some(|table|) && start + |table| <= |img| && table == img[start..start + |table|]
  {
    MulNonNegative(tableBlock, fs.superblock.blockSize);
    start := fs.partitionOffset + tableBlock * fs.superblock.blockSize;
  }

  lemma DirectRead(fs: Ext4Filesystem, img: Image, inode: U32, tableBlock: U64, index: U32, absolute: U64)
    requires 0 < inode <= fs.superblock.inodesCount && ValidInodeSize(fs.superblock.inodeSize)
      && fs.superblock.blockSize > 0
    requires fs.GroupForInode(inode).Ok? && fs.GroupForInode(inode).value < |fs.tables|
    requires tableBlock == fs.tables[fs.GroupForInode(inode).value] && fs.IndexInGroup(inode) == Ok(index)
    requires absolute == fs.partitionOffset + tableBlock * fs.superblock.blockSize + index * fs.superblock.inodeSize
    ensures fs.ReadInode(img, inode) == ReadAt(img, absolute, fs.superblock.inodeSize)
  {
    MulNonNegative(index, fs.superblock.inodeSize);
    MulNonNegative(tableBlock, fs.superblock.blockSize);
    assert fs.InodeOffset(inode, tableBlock) == Ok(absolute - fs.partitionOffset);
  }

  lemma TableHoldsTheGroup(fs: Ext4Filesystem, length: nat, index: nat)
    requires fs.superblock.blockSize > 0 && fs.superblock.inodeSize > 0
    requires fs.TableBytes() == Some(length) && index < fs.superblock.inodesPerGroup
    ensures index < length / fs.superblock.inodeSize
    ensures 0 <= index * fs.superblock.inodeSize && index * fs.superblock.inodeSize + fs.superblock.inodeSize <= length
  {
    var sb := fs.superblock;
    var bytes := sb.inodesPerGroup * sb.inodeSize;
    DivCeilCovers(bytes, sb.blockSize, DivCeil(bytes, sb.blockSize));
    MulMonotone(index + 1, sb.inodesPerGroup, sb.inodeSize);
    MulNonNegative(index, sb.inodeSize);
    QuotientExceeds(length, sb.inodeSize, index);
  }

  lemma QuotientExceeds(length: nat, size: nat, index: nat)
    requires size > 0 && (index + 1) * size <= length
    ensures index < length / size
  {
    if length / size <= index {
      MulMonotone(length / size + 1, index + 1, size);
    }
  }
}
