/** FAT32 geometry, the lazily cached allocation table and the cluster reader. */
module Fat32Volume {
  import opened Machine
  import opened Evidence
  import opened FatChain

  const FAT32_LABEL: seq<Byte> := [0x46, 0x41, 0x54, 0x33, 0x32, 0x20, 0x20, 0x20]

  datatype Fat32Boot = Fat32Boot(
    bytesPerSector: U16, sectorsPerCluster: Byte, reservedSectors: U16, fatSize: U32, rootCluster: U32,
    firstDataSector: U32, totalClusters: U32)
  {
    ghost predicate Valid() {
      && (bytesPerSector == 512 || bytesPerSector == 1024 || bytesPerSector == 2048 || bytesPerSector == 4096)
      && 1 <= sectorsPerCluster
      && 2 <= rootCluster
    }

    function ClusterSize(): (n: U64)
      ensures Valid() ==> n >= 512
    {
      MulMonotone(bytesPerSector, 0x1_0000, sectorsPerCluster);
      MulMonotone(512, Max(512, bytesPerSector), sectorsPerCluster);
      bytesPerSector * sectorsPerCluster
    }

    function FatBytes(): U64 {
      MulMonotone(bytesPerSector, 0x1_0000, fatSize);
      fatSize * bytesPerSector
    }

    function FatOffset(): (n: U64)
      ensures n < 0x1_0000_0000
    {
      MulMonotone(bytesPerSector, 0x1_0000, reservedSectors);
      reservedSectors * bytesPerSector
    }

    function SectorOfCluster(cluster: U32): (s: Option<U64>)
      ensures s.Some? ==> s.value < 0x1_0000_0000_0000
    {
      if cluster < 2 then None
      else
        MulMonotone(cluster - 2, 0x1_0000_0000, sectorsPerCluster);
        var skipped := (cluster - 2) * sectorsPerCluster;
        Some(firstDataSector + skipped)
    }
  }

  function IsPowerOfTwoByte(b: Byte): bool {
    b in {1, 2, 4, 8, 16, 32, 64, 128}
  }

  lemma SectorBytesFit(sector: nat, bytesPerSector: nat)
    requires sector < 0x1_0000_0000_0000 && bytesPerSector < 0x1_0000
    ensures 0 <= sector * bytesPerSector < U64_LIMIT
  {
    MulNonNegative(sector, bytesPerSector);
    MulMonotone(sector, 0xFFFF_FFFF_FFFF, bytesPerSector);
  }

  /** Decodes and validates the boot sector. */
  function Parse(data: seq<Byte>): Result<Fat32Boot> {
    if |data| < 512 || U16At(data, 0x1FE) != 0xAA55 then Err(InvalidFormat)
    else
      var bps, spc, reserved, fats := U16At(data, 0x0B), data[0x0D], U16At(data, 0x0E), data[0x10];
      if bps !in {512, 1024, 2048, 4096} || !IsPowerOfTwoByte(spc) || fats == 0 then Err(InvalidFormat)
      else
        var totalSectors: U32 := if U16At(data, 0x13) != 0 then U16At(data, 0x13) else U32At(data, 0x20);
        var fatSize: U32 := if U16At(data, 0x16) != 0 then U16At(data, 0x16) else U32At(data, 0x24);
        var firstDataSector := FirstDataSector(reserved, fatSize, fats, U16At(data, 0x11), bps);
        if totalSectors == 0 || fatSize == 0 || firstDataSector.None? || firstDataSector.value >= totalSectors
        then Err(InvalidFormat)
        else
          var totalClusters := Quotient(totalSectors - firstDataSector.value, spc);
          if totalClusters < 65525 && data[0x52..0x5A] != FAT32_LABEL then Err(InvalidFormat)
          else if U32At(data, 0x2C) < 2 then Err(InvalidFormat)
          else Ok(Fat32Boot(bps, spc, reserved, fatSize, U32At(data, 0x2C), firstDataSector.value, totalClusters))
  }

  /** What an accepted boot sector guarantees: the geometry every FAT32 theorem relies on, the primary table in front of
      the data region, and all data clusters inside the volume. */
  lemma ParsedIsValid(data: seq<Byte>)
    requires Parse(data).Ok?
    ensures Parse(data).value.Valid()
    ensures var boot := Parse(data).value;
      && boot.reservedSectors + boot.fatSize <= boot.firstDataSector
      && 0 <= boot.totalClusters * boot.sectorsPerCluster
      && boot.firstDataSector + boot.totalClusters * boot.sectorsPerCluster < 0x1_0000_0000
  {
    var boot, fats := Parse(data).value, data[0x10];
    MulMonotone(1, fats, boot.fatSize);
    MulNonNegative(boot.totalClusters, boot.sectorsPerCluster);
    var totalSectors: U32 := if U16At(data, 0x13) != 0 then U16At(data, 0x13) else U32At(data, 0x20);
    QuotientFits(totalSectors - boot.firstDataSector, boot.sectorsPerCluster);
  }

  lemma QuotientFits(a: U32, b: Byte)
    requires b > 0
    ensures Quotient(a, b) * b <= a
  {}

  /** The sector behind the reserved area, the table copies and the root directory; None when it leaves 32 bits. */
  function FirstDataSector(reserved: U16, fatSize: U32, fats: Byte, rootEntries: U16, bytesPerSector: U16): Option<U32>
    requires bytesPerSector >= 512
  {
    MulNonNegative(fatSize, fats);
    var sector := reserved + fatSize * fats + DivCeil(rootEntries * 32, bytesPerSector);
    if sector < 0x1_0000_0000 then Some(sector) else None
  }

  function Quotient(a: U32, b: Byte): (q: U32)
    requires b > 0
  {
    a / b
  }

  const RULES: FatRules := FatRules(0x0FFF_FFF7, 0x0FFF_FFF8)

  const MAX_CACHED_FAT_BYTES: nat := 0x1000_0000

  /** A FAT32 volume inside an image. */
  datatype Fat32Disk = Fat32Disk(img: Image, boot: Fat32Boot, partitionOffset: U64) {

    function ReadRelative(offset: U64, size: nat): (r: Result<seq<Byte>>)
      ensures r.Ok? ==> |r.value| == size
    {
      match CheckedAdd(offset, partitionOffset)
      case None => Err(Io)
      case Some(absolute) => ReadAt(img, absolute, size)
    }

    /** One entry read on its own. */
    function DirectEntry(cluster: U32): Result<U32> {
      var raw :- ReadRelative(boot.FatOffset() + cluster * 4, 4);
      Ok(U32At(raw, 0))
    }

    /** The whole primary table in one read. */
    function FatRegion(): Result<seq<Byte>> {
      ReadRelative(boot.FatOffset(), boot.FatBytes())
    }

    /** The cached table: entries behind the end of the region are zero. */
    function CachedTable(region: seq<Byte>): (t: seq<U32>)
      ensures |t| == boot.totalClusters + 1
    {
      seq(boot.totalClusters + 1, i requires 0 <= i => if 4 * i + 4 <= |region| then U32At(region, 4 * i) else 0)
    }

    /** What reading an entry returns, whether or not the cache is filled: small tables are read as a whole. */
    function FatEntry(cluster: U32): Result<U32> {
      if cluster < 2 || cluster > boot.totalClusters then Err(InvalidFormat)
      else if boot.FatBytes() <= MAX_CACHED_FAT_BYTES then
        var region :- FatRegion();
        Ok(CachedTable(region)[cluster])
      else DirectEntry(cluster)
    }

    function Table(): Fat {
      (cluster: U32) => FatEntry(cluster)
    }

    function ChainOf(start: U32, maxClusters: U64): Result<seq<U32>> {
      if start < 2 then Err(InvalidFormat) else Walk(Table(), RULES, start, maxClusters)
    }

    function ClusterOffset(cluster: U32): Result<U64> {
      match boot.SectorOfCluster(cluster)
      case None => Err(InvalidFormat)
      case Some(sector) =>
        SectorBytesFit(sector, boot.bytesPerSector);
        Ok(sector * boot.bytesPerSector)
    }

    function ClusterExtent(cluster: U32): Result<Extent> {
      var offset :- ClusterOffset(cluster);
      match CheckedAdd(offset, partitionOffset)
      case None => Err(Io)
      case Some(absolute) => Ok(Extent(absolute, boot.ClusterSize()))
    }

    function ClusterExtents(chain: seq<U32>): (es: seq<Result<Extent>>)
      ensures |es| == |chain|
    {
      seq(|chain|, i requires 0 <= i < |chain| => ClusterExtent(chain[i]))
    }

    /** The chain recorded for a file: bounded by its size, empty when it cannot be followed. */
    function FileChain(cluster: U32, size: U64): seq<U32>
      requires boot.Valid()
    {
      if cluster < 2 || size == 0 then []
      else
        BudgetFits(size, boot.ClusterSize());
        var walked := ChainOf(cluster, Max(DivCeil(size, boot.ClusterSize()), 1));
        if walked.Ok? then walked.value else []
    }

    function ReadCluster(cluster: U32, size: nat): Result<seq<Byte>> {
      if size > boot.ClusterSize() then Err(InvalidFormat)
      else
        var offset :- ClusterOffset(cluster);
        ReadRelative(offset, size)
    }

    function ChainContent(start: U32, maxBytes: U64): Result<seq<Byte>>
      requires boot.Valid()
    {
      BudgetFits(maxBytes, boot.ClusterSize());
      var chain :- ChainOf(start, DivCeil(maxBytes, boot.ClusterSize()));
      GatherExtents(img, ClusterExtents(chain), maxBytes)
    }
  }

  /** The cached answer is the direct one exactly when the entry lies inside the table region, or reads as zero
      behind it. */
  lemma CacheRefinesDirectReads(disk: Fat32Disk, cluster: U32)
    requires 2 <= cluster <= disk.boot.totalClusters
    requires disk.boot.FatBytes() <= MAX_CACHED_FAT_BYTES && disk.FatRegion().Ok?
    ensures disk.FatEntry(cluster) == disk.DirectEntry(cluster)
       <==> 4 * cluster + 4 <= disk.boot.FatBytes() || disk.DirectEntry(cluster) == Ok(0)
  {
    if 4 * cluster + 4 <= disk.boot.FatBytes() {
      var region := disk.FatRegion().value;
      var at := disk.partitionOffset + disk.boot.FatOffset();
      var raw := disk.img[at + 4 * cluster..at + 4 * cluster + 4];
      assert disk.DirectEntry(cluster) == Ok(U32At(raw, 0));
      assert forall k | 0 <= k < 4 :: raw[k] == region[4 * cluster + k];
    }
  }

  class Fat32Reader {
    const disk: Fat32Disk
    var fatCache: Option<seq<U32>>

    /** The cache, once filled, is the decoded table region. */
    ghost predicate Valid()
      reads this
    {
      && disk.boot.Valid()
      && (fatCache.Some? ==>
            && disk.boot.FatBytes() <= MAX_CACHED_FAT_BYTES
            && disk.FatRegion().Ok? && fatCache.value == disk.CachedTable(disk.FatRegion().value))
    }

    constructor (disk: Fat32Disk)
      requires disk.boot.Valid()
      ensures Valid() && this.disk == disk && fatCache == None
    {
      this.disk := disk;
      fatCache := None;
    }

    /** Fills the cache, or fails and leaves it empty. */
    method EnsureFatCache() returns (r: Result<()>)
      requires Valid() && disk.boot.FatBytes() <= MAX_CACHED_FAT_BYTES
      modifies this
      ensures Valid()
      ensures r.Ok? <==> disk.FatRegion().Ok?
      ensures if r.Ok? then fatCache.Some? else fatCache == old(fatCache) && r == Err(disk.FatRegion().error)
    {
      if fatCache.Some? {
        return Ok(());
      }
      var read := disk.FatRegion();
      if read.Err? {
        return Err(read.error);
      }
      var data := read.value;
      var total := disk.boot.totalClusters + 1;
      var entries := new U32[total](_ => 0);
      var index := 0;
      while 4 * index + 4 <= |data|
        invariant 0 <= index <= total
        invariant forall k | 0 <= k < index :: 4 * k + 4 <= |data| && entries[k] == U32At(data, 4 * k)
        invariant forall k | index <= k < total :: entries[k] == 0
        invariant fresh(entries)
        decreases total - index
      {
        if index >= total {
          break;
        }
        entries[index] := U32At(data, 4 * index);
        index := index + 1;
      }
      assert entries[..] == disk.CachedTable(data);
      fatCache := Some(entries[..]);
      r := Ok(());
    }

    /** The answer never depends on the state of the cache. */
    method ReadFatEntry(cluster: U32) returns (r: Result<U32>)
      requires Valid()
      modifies this
      ensures Valid()
      ensures r == disk.FatEntry(cluster)
      ensures old(fatCache).Some? ==> fatCache == old(fatCache)
    {
      var total := disk.boot.totalClusters;
      if cluster < 2 || cluster > total {
        return Err(InvalidFormat);
      }
      if fatCache.Some? {
        return Ok(fatCache.value[cluster]);
      }
      if disk.boot.FatBytes() <= MAX_CACHED_FAT_BYTES {
        var filled := EnsureFatCache();
        if filled.Err? {
          return Err(filled.error);
        }
        return Ok(fatCache.value[cluster]);
      }
      r := disk.DirectEntry(cluster);
    }

    method WalkChain(start: U32, maxClusters: U64) returns (r: Result<seq<U32>>)
      requires Valid()
      modifies this
      ensures Valid()
      ensures r == disk.ChainOf(start, maxClusters)
    {
      if start < 2 {
        return Err(InvalidFormat);
      }
      var chain: seq<U32> := [];
      var seen: set<U32> := {};
      var cluster := start;
      ghost var fat := disk.Table();
      PrependNothing(Walk(fat, RULES, start, maxClusters));
      while true
        invariant Valid()
        invariant Walk(fat, RULES, start, maxClusters)
               == Prepend(chain, WalkFrom(fat, RULES, cluster, seen, maxClusters, |chain|))
        decreases maxClusters - |chain|
      {
        ghost var before := chain;
        chain := chain + [cluster];
        if |chain| >= maxClusters {
          break;
        }
        if cluster in seen {
          break;
        }
        var entry := ReadFatEntry(cluster);
        if entry.Err? {
          return Err(entry.error);
        }
        if RULES.Terminates(entry.value) {
          break;
        }
        PrependTwice(before, [cluster], WalkFrom(fat, RULES, entry.value, seen + {cluster}, maxClusters, |chain|));
        seen := seen + {cluster};
        cluster := entry.value;
      }
      r := Ok(chain);
    }

    /** Appends the first `maxBytes` bytes of the chain to `out`. */
    method ReadChain(start: U32, maxBytes: U64, out: seq<Byte>) returns (r: Result<seq<Byte>>)
      requires Valid()
      modifies this
      ensures Valid()
      ensures r == Prepend(out, disk.ChainContent(start, maxBytes))
    {
      var clusterSize := disk.boot.ClusterSize();
      BudgetFits(maxBytes, clusterSize);
      var chain := WalkChain(start, DivCeil(maxBytes, clusterSize));
      if chain.Err? {
        return Err(chain.error);
      }
      var data := ReadClusters(chain.value, maxBytes);
      r := Prepend(out, data);
    }

    method ReadClusters(chain: seq<U32>, maxBytes: U64) returns (r: Result<seq<Byte>>)
      ensures r == GatherExtents(disk.img, disk.ClusterExtents(chain), maxBytes)
    {
      ghost var extents := disk.ClusterExtents(chain);
      var clusterSize := disk.boot.ClusterSize();
      var data: seq<Byte> := [];
      var remaining := maxBytes;
      var i := 0;
      assert extents[i..] == extents;
      PrependNothing(GatherExtents(disk.img, extents, maxBytes));
      while i < |chain|
        invariant i <= |chain| && 0 <= remaining <= maxBytes
        invariant GatherExtents(disk.img, extents, maxBytes)
               == Prepend(data, GatherExtents(disk.img, extents[i..], remaining))
      {
        if remaining == 0 {
          break;
        }
        var chunk := Min(remaining, clusterSize);
        var buffer := disk.ReadCluster(chain[i], chunk);
        ReadClusterIsExtent(disk, chain[i], chunk);
        if buffer.Err? {
          return Err(buffer.error);
        }
        ExtentStep(disk.img, extents, i, data, remaining, buffer.value);
        data := data + buffer.value;
        remaining := remaining - chunk;
        i := i + 1;
      }
      assert data + [] == data;
      r := Ok(data);
    }
  }

  lemma ReadClusterIsExtent(disk: Fat32Disk, cluster: U32, size: nat)
    requires size <= disk.boot.ClusterSize()
    ensures var extent := disk.ClusterExtent(cluster);
      disk.ReadCluster(cluster, size)
        == if extent.Err? then Err(extent.error) else ReadAt(disk.img, extent.value.offset, size)
    ensures disk.ClusterExtent(cluster).Ok? ==> disk.ClusterExtent(cluster).value.size == disk.boot.ClusterSize()
  {}
}
