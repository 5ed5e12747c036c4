/** FAT volumes as they lie on disk: tables and clusters as bytes of the image, and what recovery makes of them. */
module FatOnDisk {
  import opened Machine
  import opened Evidence
  import opened ForensicModel
  import opened RecoveryEngine
  import opened FatChain
  import opened FatRecovery
  import X = ExFatVolume
  import F = Fat32Volume
  import V = Fat32Walk
  import W = ExFatWalk

  // ----- chains in a table -----

  /** The table spelled out in the image: four bytes for each cluster number from 2 on, low byte first. */
  ghost predicate HoldsTable(img: Image, at: nat, table: seq<U32>) {
    forall c: nat | 2 <= c < |table| :: Stores(img, at + 4 * c, table[c], 4)
  }

  /** Entries 0 and 1 and those from `mark` up end a chain, all others name the next cluster. */
  ghost predicate Leads(table: seq<U32>, mark: U32, from: U32, to: U32) {
    2 <= from < |table| && table[from] == to && 2 <= to < mark
  }

  ghost predicate Ends(table: seq<U32>, mark: U32, cluster: U32) {
    2 <= cluster < |table| && !(2 <= table[cluster] < mark)
  }

  ghost predicate LeadsOn(table: seq<U32>, mark: U32, chain: seq<U32>, i: nat)
    requires i + 1 < |chain|
  {
    Leads(table, mark, chain[i], chain[i + 1])
  }

  /** The chain of `start`: each cluster leads to the next, none but the last occurs before, and it goes on until the
      table ends it, it closes a loop or it has as many clusters as asked for. */
  ghost predicate ChainInTable(table: seq<U32>, mark: U32, start: U32, budget: nat, chain: seq<U32>) {
    && chain != [] && chain[0] == start && |chain| <= Max(1, budget)
    && (forall i | 0 <= i < |chain| - 1 :: LeadsOn(table, mark, chain, i))
    && (forall i, j | 0 <= i < j < |chain| - 1 :: chain[i] != chain[j])
    && var last := chain[|chain| - 1];
       |chain| >= budget || last in chain[..|chain| - 1] || Ends(table, mark, last)
  }

  /** The table as a function that fails outside its range. */
  ghost predicate IsTable(fat: Fat, table: seq<U32>) {
    && (forall c: U32 | 2 <= c < |table| :: fat(c) == Ok(table[c]))
    && (forall c: U32 | !(2 <= c < |table|) :: fat(c).Err?)
  }

  ghost predicate EndsFrom(rules: FatRules, mark: U32) {
    forall entry: U32 :: rules.Terminates(entry) <==> !(2 <= entry < mark)
  }

  lemma LinksAgree(fat: Fat, rules: FatRules, table: seq<U32>, mark: U32, chain: seq<U32>, i: nat)
    requires IsTable(fat, table) && EndsFrom(rules, mark) && i + 1 < |chain|
    ensures LinkAt(fat, rules, chain, i) == LeadsOn(table, mark, chain, i)
  {}

  lemma FreshIsDistinct(chain: seq<U32>)
    ensures (forall i | 0 <= i < |chain| - 1 :: FreshAt(chain, {}, i))
       <==> (forall i, j | 0 <= i < j < |chain| - 1 :: chain[i] != chain[j])
  {
    if forall i | 0 <= i < |chain| - 1 :: FreshAt(chain, {}, i) {
      forall i, j | 0 <= i < j < |chain| - 1 ensures chain[i] != chain[j] {
        assert FreshAt(chain, {}, j) && chain[i] == chain[..j][i];
      }
    }
  }

  /** A walk through the table finds exactly its chains. */
  lemma WalkFollowsTable(fat: Fat, rules: FatRules, table: seq<U32>, mark: U32, start: U32, budget: nat,
                         chain: seq<U32>)
    requires IsTable(fat, table) && EndsFrom(rules, mark)
    ensures Walk(fat, rules, start, budget) == Ok(chain) <==> ChainInTable(table, mark, start, budget, chain)
  {
    WalkMeaning(fat, rules, start, budget, chain);
    FreshIsDistinct(chain);
    forall i: nat | i < |chain| - 1 ensures LinkAt(fat, rules, chain, i) == LeadsOn(table, mark, chain, i) {
      LinksAgree(fat, rules, table, mark, chain, i);
    }
    if chain != [] {
      var n := |chain| - 1;
      assert FreshAt(chain, {}, n) <==> chain[n] !in chain[..n];
      assert (fat(chain[n]).Ok? && rules.Terminates(fat(chain[n]).value)) <==> Ends(table, mark, chain[n]);
    }
  }

  // ----- boot sectors -----

  /** An exFAT boot sector with these fields: sectors of 2^shift bytes, clusters of 2^bits sectors. */
  ghost predicate IsExFatBoot(data: seq<Byte>, shift: nat, bits: nat, fats: nat, fatOffset: U32, fatLength: U32,
                              heap: U32, clusters: U32, root: U32) {
    && |data| >= 512 && data[3..11] == [0x45, 0x58, 0x46, 0x41, 0x54, 0x20, 0x20, 0x20] && Stores(data, 510, 0xAA55, 2)
    && data[108] == shift && 9 <= shift <= 12 && data[109] == bits && bits <= 25 && data[110] == fats && 1 <= fats <= 2
    && Stores(data, 80, fatOffset, 4) && 0 < fatOffset && Stores(data, 84, fatLength, 4) && 0 < fatLength
    && Stores(data, 88, heap, 4) && fatOffset + fats * fatLength <= heap
    && Stores(data, 92, clusters, 4) && 0 < clusters < 0xFFFF_FFFF
    && Stores(data, 96, root, 4) && 2 <= root <= clusters + 1
  }

  lemma ExFatBootParses(data: seq<Byte>, shift: nat, bits: nat, fats: nat, fatOffset: U32, fatLength: U32, heap: U32,
                        clusters: U32, root: U32)
    requires IsExFatBoot(data, shift, bits, fats, fatOffset, fatLength, heap, clusters, root)
    ensures X.Parse(data) == Ok(X.ExFatBoot(Pow2(shift), bits, fatOffset, heap, clusters, root))
  {
    ExFatFields(data, fatOffset, fatLength, heap, clusters, root);
    SectorSizes(shift);
    assert fats * fatLength == fatLength * fats;
  }

  lemma ExFatFields(data: seq<Byte>, fatOffset: U32, fatLength: U32, heap: U32, clusters: U32, root: U32)
    requires |data| >= 512 && Stores(data, 510, 0xAA55, 2)
    requires Stores(data, 80, fatOffset, 4) && Stores(data, 84, fatLength, 4) && Stores(data, 88, heap, 4)
    requires Stores(data, 92, clusters, 4) && Stores(data, 96, root, 4)
    ensures U16At(data, 510) == 0xAA55 && U32At(data, 80) == fatOffset && U32At(data, 84) == fatLength
    ensures U32At(data, 88) == heap && U32At(data, 92) == clusters && U32At(data, 96) == root
  {
    StoredU16(data, 510, 0xAA55);
    StoredU32(data, 80, fatOffset);
    StoredU32(data, 84, fatLength);
    StoredU32(data, 88, heap);
    StoredU32(data, 92, clusters);
    StoredU32(data, 96, root);
  }

  lemma SectorSizes(shift: nat)
    requires 9 <= shift <= 12
    ensures 512 <= Pow2(shift) <= 4096
  {
    assert Pow2(8) == 256;
    Pow2Add(8, shift - 8);
    assert Pow2(4) == 16;
    Pow2Monotone(shift - 8, 4);
    Pow2Monotone(1, shift - 8);
  }

  /** A FAT32 boot sector with these fields; the 16-bit counts of older variants are zero. */
  ghost predicate IsFat32Boot(data: seq<Byte>, bytesPerSector: U16, sectorsPerCluster: Byte, reserved: U16, fats: Byte,
                              fatSize: U32, sectors: U32, root: U32) {
    && |data| >= 512 && Stores(data, 510, 0xAA55, 2) && data[82..90] == [0x46, 0x41, 0x54, 0x33, 0x32, 0x20, 0x20, 0x20]
    && Stores(data, 11, bytesPerSector, 2) && bytesPerSector in {512, 1024, 2048, 4096}
    && data[13] == sectorsPerCluster && sectorsPerCluster in {1, 2, 4, 8, 16, 32, 64, 128}
    && Stores(data, 14, reserved, 2) && data[16] == fats && 0 < fats
    && Stores(data, 17, 0, 2) && Stores(data, 19, 0, 2) && Stores(data, 22, 0, 2)
    && Stores(data, 32, sectors, 4) && Stores(data, 36, fatSize, 4) && 0 < fatSize
    && reserved + fats * fatSize < sectors && Stores(data, 44, root, 4) && 2 <= root
  }

  lemma Fat32BootParses(data: seq<Byte>, bytesPerSector: U16, sectorsPerCluster: Byte, reserved: U16, fats: Byte,
                        fatSize: U32, sectors: U32, root: U32)
    requires IsFat32Boot(data, bytesPerSector, sectorsPerCluster, reserved, fats, fatSize, sectors, root)
    ensures F.Parse(data).Ok?
    ensures var boot := F.Parse(data).value;
      && boot.bytesPerSector == bytesPerSector && boot.sectorsPerCluster == sectorsPerCluster
      && boot.reservedSectors == reserved && boot.fatSize == fatSize && boot.rootCluster == root
      && boot.firstDataSector == reserved + fats * fatSize
      && boot.totalClusters == (sectors - (reserved + fats * fatSize)) / sectorsPerCluster
  {
    StoredU16(data, 510, 0xAA55);
    StoredU16(data, 11, bytesPerSector);
    StoredU16(data, 14, reserved);
    StoredU16(data, 17, 0);
    StoredU16(data, 19, 0);
    StoredU16(data, 22, 0);
    StoredU32(data, 32, sectors);
    StoredU32(data, 36, fatSize);
    StoredU32(data, 44, root);
    MulNonNegative(fats, fatSize);
    assert fats * fatSize == fatSize * fats;
    assert F.FirstDataSector(reserved, fatSize, fats, 0, bytesPerSector) == Some(reserved + fats * fatSize) by {
      NoRootEntries(bytesPerSector);
    }
  }

  lemma NoRootEntries(bytesPerSector: nat)
    requires bytesPerSector > 0
    ensures DivCeil(0, bytesPerSector) == 0
  {}

  // ----- exFAT -----

  lemma ExFatEntryIsStored(reader: X.ExFatReader, img: Image, at: nat, table: seq<U32>, cluster: U32)
    requires reader.boot.Valid() && |table| == reader.boot.clusterCount + 1
    requires at == reader.partitionOffset + reader.boot.fatOffset * reader.boot.bytesPerSector
    requires HoldsTable(img, at, table)
    ensures reader.ReadFatEntry(img, cluster)
         == if 2 <= cluster < |table| then Ok(table[cluster]) else Err(InvalidFormat)
  {
    if 2 <= cluster < |table| {
      assert Stores(img, at + 4 * cluster, table[cluster], 4);
      StoredU32(img, at + 4 * cluster, table[cluster]);
    }
  }

  /** exFAT follows the table of the image: entries 0, 1 and from 0xFFFF_FFF7 up end a chain. */
  lemma ExFatFollowsTable(reader: X.ExFatReader, img: Image, at: nat, table: seq<U32>, start: U32, budget: U64,
                          chain: seq<U32>)
    requires reader.boot.Valid() && |table| == reader.boot.clusterCount + 1 && start != 0
    requires at == reader.partitionOffset + reader.boot.fatOffset * reader.boot.bytesPerSector
    requires HoldsTable(img, at, table)
    ensures reader.ChainOf(img, start, budget) == Ok(chain)
       <==> ChainInTable(table, 0xFFFF_FFF7, start, budget, chain)
  {
    forall c: U32
      ensures reader.Table(img)(c) == if 2 <= c < |table| then Ok(table[c]) else Err(InvalidFormat)
    {
      ExFatEntryIsStored(reader, img, at, table, c);
    }
    WalkFollowsTable(reader.Table(img), X.RULES, table, 0xFFFF_FFF7, start, budget, chain);
  }

  // ----- FAT32 -----

  /** A table that has an entry for each cluster, in a region that lies in the image. */
  ghost predicate HoldsFat32Table(disk: F.Fat32Disk, table: seq<U32>) {
    var at := disk.partitionOffset + disk.boot.reservedSectors * disk.boot.bytesPerSector;
    var size := disk.boot.fatSize * disk.boot.bytesPerSector;
    && |table| == disk.boot.totalClusters + 1 && 4 * |table| <= size
    && 0 <= at && at + size <= |disk.img| && HoldsTable(disk.img, at, table)
  }

  lemma Fat32EntryIsStored(disk: F.Fat32Disk, table: seq<U32>, cluster: U32)
    requires HoldsFat32Table(disk, table)
    ensures disk.FatEntry(cluster) == if 2 <= cluster < |table| then Ok(table[cluster]) else Err(InvalidFormat)
  {
    var at := disk.partitionOffset + disk.boot.FatOffset();
    if 2 <= cluster < |table| {
      assert Stores(disk.img, at + 4 * cluster, table[cluster], 4);
      StoredU32(disk.img, at + 4 * cluster, table[cluster]);
      assert disk.DirectEntry(cluster) == Ok(table[cluster]);
      if disk.boot.FatBytes() <= F.MAX_CACHED_FAT_BYTES {
        F.CacheRefinesDirectReads(disk, cluster);
      }
    }
  }

  /** FAT32 follows the table of the image, cached or not: entries 0, 1 and from 0x0FFF_FFF7 up end a chain. */
  lemma Fat32FollowsTable(disk: F.Fat32Disk, table: seq<U32>, start: U32, budget: U64, chain: seq<U32>)
    requires HoldsFat32Table(disk, table) && start >= 2
    ensures disk.ChainOf(start, budget) == Ok(chain) <==> ChainInTable(table, 0x0FFF_FFF7, start, budget, chain)
  {
    forall c: U32 ensures disk.Table()(c) == if 2 <= c < |table| then Ok(table[c]) else Err(InvalidFormat) {
      Fat32EntryIsStored(disk, table, c);
    }
    WalkFollowsTable(disk.Table(), F.RULES, table, 0x0FFF_FFF7, start, budget, chain);
  }

  // ----- the bytes of a file -----

  /** Byte p of the data is byte p % unit of cluster p / unit of the chain, cluster 2 lying at `heap`. */
  ghost predicate FollowsChain(img: Image, heap: int, unit: nat, chain: seq<U32>, data: seq<Byte>)
    requires unit > 0
  {
    forall p | 0 <= p < |data| :: IsChainByte(img, heap, unit, chain, p, data[p])
  }

  ghost predicate IsChainByte(img: Image, heap: int, unit: nat, chain: seq<U32>, p: nat, value: Byte)
    requires unit > 0
  {
    && 0 <= p / unit < |chain| && chain[p / unit] >= 2
    && IsByte(img, heap + (chain[p / unit] - 2) * unit + p % unit, value)
  }

  ghost predicate IsByte(img: Image, at: int, value: Byte) {
    0 <= at < |img| && img[at] == value
  }

  lemma SplitPosition(p: nat, unit: nat)
    requires unit > 0
    ensures p == (p / unit) * unit + p % unit && 0 <= p / unit && 0 <= p % unit < unit
  {}

  lemma ClusterPosition(g: Geometry, cluster: int)
    ensures g.ClusterStart(cluster) == g.ClusterStart(2) + (cluster - 2) * g.ClusterSize()
  {
    assert (cluster - 2) * (512 * g.sectorsPerCluster) == 512 * ((cluster - 2) * g.sectorsPerCluster);
  }

  lemma ClustersInside(img: Image, g: Geometry, chain: seq<U32>, heap: int, unit: int)
    requires heap == g.ClusterStart(2) && unit == g.ClusterSize() && RealClusters(chain)
    requires forall i | 0 <= i < |chain| :: heap + (chain[i] - 2) * unit + unit <= |img|
    ensures AllInImage(img, g, chain)
  {
    forall i | 0 <= i < |chain| ensures g.InImage(img, chain[i]) {
      ClusterPosition(g, chain[i]);
    }
  }

  /** The concatenated clusters of a chain that lies in the image. */
  lemma ClusterBytes(img: Image, g: Geometry, chain: seq<U32>)
    requires g.Valid() && AllInImage(img, g, chain)
    ensures var parts := g.ClusterParts(img, chain);
      && AllOk(parts) && 0 <= |chain| * g.ClusterSize() && |ReadablePrefix(parts)| == |chain| * g.ClusterSize()
      && FollowsChain(img, g.ClusterStart(2), g.ClusterSize(), chain, ReadablePrefix(parts))
  {
    var parts, unit := g.ClusterParts(img, chain), g.ClusterSize();
    ClustersAreUnits(img, g, chain);
    ClustersInImage(img, g, chain);
    UnitTotal(parts, unit);
    var content := ReadablePrefix(parts);
    forall p | 0 <= p < |content| ensures IsChainByte(img, g.ClusterStart(2), unit, chain, p, content[p]) {
      SplitPosition(p, unit);
      UnitBytes(parts, unit, p / unit, p % unit, p);
      assert g.InImage(img, chain[p / unit]);
      ClusterPosition(g, chain[p / unit]);
      MulNonNegative(chain[p / unit] - 2, g.sectorsPerCluster);
    }
  }

  lemma FollowsFront(img: Image, heap: int, unit: nat, chain: seq<U32>, content: seq<Byte>, n: nat)
    requires unit > 0 && n <= |content| && FollowsChain(img, heap, unit, chain, content)
    ensures FollowsChain(img, heap, unit, chain, content[..n])
  {
    forall p | 0 <= p < n ensures IsChainByte(img, heap, unit, chain, p, content[..n][p]) {
      assert IsChainByte(img, heap, unit, chain, p, content[p]);
    }
  }

  /** What recovery returns for a file: its bytes, cluster by cluster, or failure when the chain is too short. */
  ghost predicate RecoversChain(img: Image, heap: int, unit: nat, chain: seq<U32>, size: nat,
                                outcome: Result<Recovery>)
    requires unit > 0
  {
    if size <= |chain| * unit
    then
      && outcome.Ok? && outcome.value.Recovered? && |outcome.value.data| == size
      && FollowsChain(img, heap, unit, chain, outcome.value.data)
    else outcome == Ok(Failed)
  }

  lemma ChainRecovers(img: Image, g: Geometry, chain: seq<U32>, extents: seq<Result<Extent>>, n: U64, entry: Entry)
    requires g.Valid() && g.ClusterSize() < U64_LIMIT && ChainEntry(entry, g, chain, g.ClusterSize(), n)
    requires chain != [] && AllInImage(img, g, chain) && ExtentsMatch(img, g, chain, extents)
    requires 0 < n < U64_MAX && |chain| <= DivCeil(n, g.ClusterSize())
    ensures RecoversChain(img, g.ClusterStart(2), g.ClusterSize(), chain, n,
                          Engine(g.partitionOffset, 512).Outcome(img, entry))
  {
    var content := ReadablePrefix(g.ClusterParts(img, chain));
    ClusterBytes(img, g, chain);
    assert forall i | 0 <= i < |chain| :: g.InImage(img, chain[i]);
    ChainEndToEnd(Engine(g.partitionOffset, 512), img, g, chain, extents, n, entry);
    ExtentsRead(img, g, chain, extents, n);
    GatherMeaning(g.ClusterParts(img, chain), Some(n));
    if n <= |content| {
      FollowsFront(img, g.ClusterStart(2), g.ClusterSize(), chain, content, n);
    }
  }

  /** Where the clusters of an exFAT volume start, and their size. */
  ghost predicate ExFatHeapAt(reader: X.ExFatReader, heap: int, unit: nat) {
    && heap == reader.partitionOffset + reader.boot.clusterHeapOffset * reader.boot.bytesPerSector
    && unit == reader.boot.bytesPerSector * Pow2(reader.boot.sectorsPerClusterBits)
  }

  lemma ExFatHeap(reader: X.ExFatReader, heap: int, unit: nat)
    requires reader.boot.Valid() && ExFatHeapAt(reader, heap, unit)
    ensures var g := ExFatGeometry(reader);
      && g.Valid() && 0 < unit < U64_LIMIT && g.ClusterSize() == unit == reader.boot.ClusterSize()
      && g.ClusterStart(2) == heap
  {
    ExFatGeometryIsExact(reader, [], 2);
    HeapIsSectorAligned(reader.boot);
    X.ClusterSizeFits(reader.boot);
  }

  /** All clusters of the chain lie in the image. */
  ghost predicate ChainInImage(img: Image, heap: int, unit: nat, chain: seq<U32>) {
    forall i | 0 <= i < |chain| :: heap + (chain[i] - 2) * unit + unit <= |img|
  }

  /** exFAT from the bytes of the volume to the bytes of a file: if the table in the image spells out the chain of the
      start cluster, and its clusters lie in the image, recovery returns exactly their bytes in chain order, cut at the
      recorded size. */
  lemma ExFatFileBytes(reader: X.ExFatReader, img: Image, at: nat, heap: int, unit: nat, table: seq<U32>, cluster: U32,
                       size: U64, chain: seq<U32>, entry: Entry)
    requires reader.boot.Valid() && |table| == reader.boot.clusterCount + 1 && cluster >= 2 && 0 < size < U64_MAX
    requires at == reader.partitionOffset + reader.boot.fatOffset * reader.boot.bytesPerSector
    requires HoldsTable(img, at, table) && ExFatHeapAt(reader, heap, unit) && unit > 0
    requires ChainInTable(table, 0xFFFF_FFF7, cluster, DivCeil(size, unit), chain)
    requires ChainInImage(img, heap, unit, chain)
    requires ChainEntry(entry, ExFatGeometry(reader), reader.FileChain(img, cluster, size), reader.boot.ClusterSize(),
                        size)
    ensures reader.FileChain(img, cluster, size) == chain
    ensures RecoversChain(img, heap, unit, chain, size, Engine(reader.partitionOffset, 512).Outcome(img, entry))
  {
    ExFatHeap(reader, heap, unit);
    ExFatChainIsStored(reader, img, at, table, cluster, size, unit, chain);
    ExFatExtentsMatch(reader, img, chain);
    StoredChainRecovers(img, ExFatGeometry(reader), heap, unit, chain, reader.ClusterExtents(chain), size, entry);
  }

  lemma StoredChainRecovers(img: Image, g: Geometry, heap: int, unit: nat, chain: seq<U32>,
                            extents: seq<Result<Extent>>, size: U64, entry: Entry)
    requires g.Valid() && heap == g.ClusterStart(2) && 0 < unit == g.ClusterSize() < U64_LIMIT
    requires chain != [] && RealClusters(chain) && ChainInImage(img, heap, unit, chain)
    requires ExtentsMatch(img, g, chain, extents) && ChainEntry(entry, g, chain, unit, size)
    requires 0 < size < U64_MAX && |chain| <= DivCeil(size, unit)
    ensures RecoversChain(img, heap, unit, chain, size, Engine(g.partitionOffset, 512).Outcome(img, entry))
  {
    ClustersInside(img, g, chain, heap, unit);
    ChainRecovers(img, g, chain, extents, size, entry);
  }

  lemma ExFatChainIsStored(reader: X.ExFatReader, img: Image, at: nat, table: seq<U32>, cluster: U32, size: U64,
                           unit: nat, chain: seq<U32>)
    requires reader.boot.Valid() && |table| == reader.boot.clusterCount + 1 && cluster >= 2 && 0 < size < U64_MAX
    requires at == reader.partitionOffset + reader.boot.fatOffset * reader.boot.bytesPerSector
    requires HoldsTable(img, at, table) && 0 < unit == reader.boot.ClusterSize()
    requires ChainInTable(table, 0xFFFF_FFF7, cluster, DivCeil(size, unit), chain)
    ensures reader.FileChain(img, cluster, size) == chain && chain != [] && RealClusters(chain)
    ensures |chain| <= DivCeil(size, unit)
  {
    BudgetFits(size, unit);
    PositiveBudget(size, unit);
    ExFatFollowsTable(reader, img, at, table, cluster, DivCeil(size, unit), chain);
    RealWalk(reader.Table(img), X.RULES, cluster, DivCeil(size, unit));
  }

  /** FAT32 with 512-byte sectors likewise. */
  lemma Fat32FileBytes(disk: F.Fat32Disk, heap: int, unit: nat, table: seq<U32>, cluster: U32, size: U64,
                       chain: seq<U32>, entry: Entry)
    requires disk.boot.Valid() && disk.boot.bytesPerSector == 512 && cluster >= 2 && 0 < size < U64_MAX
    requires heap == disk.partitionOffset + 512 * disk.boot.firstDataSector && unit == 512 * disk.boot.sectorsPerCluster
    requires HoldsFat32Table(disk, table) && unit > 0
    requires ChainInTable(table, 0x0FFF_FFF7, cluster, DivCeil(size, unit), chain)
    requires ChainInImage(disk.img, heap, unit, chain)
    requires ChainEntry(entry, Fat32Geometry(disk), disk.FileChain(cluster, size), disk.boot.ClusterSize(), size)
    ensures disk.FileChain(cluster, size) == chain
    ensures RecoversChain(disk.img, heap, unit, chain, size,
                          Engine(disk.partitionOffset, 512).Outcome(disk.img, entry))
  {
    Fat32GeometryIsExact(disk, 2);
    Fat32ChainIsStored(disk, table, cluster, size, chain);
    Fat32ExtentsMatch(disk, chain);
    StoredChainRecovers(disk.img, Fat32Geometry(disk), heap, unit, chain, disk.ClusterExtents(chain), size, entry);
  }

  lemma Fat32ChainIsStored(disk: F.Fat32Disk, table: seq<U32>, cluster: U32, size: U64, chain: seq<U32>)
    requires disk.boot.Valid() && disk.boot.bytesPerSector == 512 && cluster >= 2 && 0 < size < U64_MAX
    requires HoldsFat32Table(disk, table)
    requires ChainInTable(table, 0x0FFF_FFF7, cluster, DivCeil(size, 512 * disk.boot.sectorsPerCluster), chain)
    ensures disk.FileChain(cluster, size) == chain && chain != [] && RealClusters(chain)
    ensures |chain| <= DivCeil(size, 512 * disk.boot.sectorsPerCluster)
  {
    var unit := disk.boot.ClusterSize();
    BudgetFits(size, unit);
    PositiveBudget(size, unit);
    Fat32FollowsTable(disk, table, cluster, DivCeil(size, unit), chain);
    RealWalk(disk.Table(), F.RULES, cluster, DivCeil(size, unit));
  }

  // ----- directory clusters -----

  /** A directory cluster of at most one mebibyte is read as it lies in the image. */
  lemma ExFatDirectoryBytes(v: W.Volume, heap: int, unit: nat, cluster: U32)
    requires v.Valid() && cluster >= 2 && ExFatHeapAt(v.reader, heap, unit) && unit <= 0x10_0000
    requires heap + (cluster - 2) * unit + unit <= |v.img|
    ensures var at := heap + (cluster - 2) * unit;
      0 <= at && v.ReadDirectoryCluster(cluster) == Ok(v.img[at..at + unit])
  {
    ExFatHeap(v.reader, heap, unit);
    MulNonNegative(cluster - 2, unit);
    X.HeapOffsetFits(v.reader.boot);
  }

  lemma Fat32DirectoryBytes(v: V.Volume, heap: int, unit: nat, cluster: U32)
    requires v.Valid() && cluster >= 2 && unit == v.disk.boot.bytesPerSector * v.disk.boot.sectorsPerCluster
    requires heap == v.disk.partitionOffset + v.disk.boot.firstDataSector * v.disk.boot.bytesPerSector
    requires unit <= 0x10_0000 && heap + (cluster - 2) * unit + unit <= |v.disk.img|
    ensures var at := heap + (cluster - 2) * unit;
      0 <= at && v.ReadDirectoryCluster(cluster) == Ok(v.disk.img[at..at + unit])
  {
    var boot := v.disk.boot;
    MulNonNegative(boot.firstDataSector, boot.bytesPerSector);
    MulNonNegative(cluster - 2, boot.sectorsPerCluster);
    MulNonNegative(cluster - 2, unit);
    assert boot.ClusterSize() == unit >= 512;
    Regroup(boot.firstDataSector, cluster - 2, boot.sectorsPerCluster, boot.bytesPerSector);
    F.SectorBytesFit(boot.SectorOfCluster(cluster).value, boot.bytesPerSector);
  }

  lemma Regroup(first: int, skipped: int, sectors: int, bytes: int)
    ensures (first + skipped * sectors) * bytes == first * bytes + skipped * (bytes * sectors)
  {}
}
