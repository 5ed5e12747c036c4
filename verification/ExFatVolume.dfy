/** exFAT geometry and the cluster reader. */
module ExFatVolume {
  import opened Machine
  import opened Evidence
  import opened FatChain

  datatype ExFatBoot = ExFatBoot(
    bytesPerSector: U32, sectorsPerClusterBits: Byte, fatOffset: U32, clusterHeapOffset: U32,
    clusterCount: U32, rootDirectoryCluster: U32)
  {
    /** What `Parse` guarantees: sectors of 512 to 4096 bytes, at most 2^25 of them in a cluster. */
    ghost predicate Valid() {
      && (bytesPerSector == 512 || bytesPerSector == 1024 || bytesPerSector == 2048 || bytesPerSector == 4096)
      && sectorsPerClusterBits <= 25
      && 2 <= rootDirectoryCluster
    }

    function SectorsPerCluster(): nat {
      Pow2(sectorsPerClusterBits)
    }

    function ClusterSize(): U64
      requires Valid()
    {
      ClusterSizeFits(this);
      bytesPerSector * SectorsPerCluster()
    }

    /** 512-byte sectors in a cluster, whatever the volume's own sector size. */
    function Sectors512PerCluster(): U64
      requires Valid()
    {
      ClusterSize() / 512
    }

    function FirstDataSector512(): U64 {
      HeapOffsetFits(this);
      clusterHeapOffset * bytesPerSector / 512
    }

    function ClusterByteOffset(cluster: U32): Option<U64>
      requires Valid()
    {
      if cluster < 2 then None
      else
        match CheckedMul(cluster - 2, ClusterSize())
        case None => None
        case Some(delta) =>
          HeapOffsetFits(this);
          CheckedAdd(clusterHeapOffset * bytesPerSector, delta)
    }
  }

  lemma HeapOffsetFits(boot: ExFatBoot)
    ensures 0 <= boot.clusterHeapOffset * boot.bytesPerSector < U64_LIMIT
  {
    MulMonotone(boot.clusterHeapOffset, 0xFFFF_FFFF, boot.bytesPerSector);
  }

  lemma ClusterSizeFits(boot: ExFatBoot)
    requires boot.Valid()
    ensures 512 <= boot.bytesPerSector * boot.SectorsPerCluster() <= 0x20_0000_0000
    ensures boot.bytesPerSector * boot.SectorsPerCluster() % 512 == 0
  {
    assert boot.SectorsPerCluster() <= 0x200_0000 by {
      Pow2Monotone(boot.sectorsPerClusterBits, 25);
      Pow2Of25();
    }
    SectorMultiple(boot.bytesPerSector, boot.SectorsPerCluster());
  }

  lemma SectorMultiple(b: nat, n: nat)
    requires (b == 512 || b == 1024 || b == 2048 || b == 4096) && 1 <= n <= 0x200_0000
    ensures 512 <= b * n <= 0x20_0000_0000 && b * n % 512 == 0
  {
    if b == 512 {
      SectorsTimes(1, n);
    } else if b == 1024 {
      SectorsTimes(2, n);
    } else if b == 2048 {
      SectorsTimes(4, n);
    } else {
      SectorsTimes(8, n);
    }
  }

  lemma SectorsTimes(k: nat, n: nat)
    requires 1 <= k <= 8 && 1 <= n <= 0x200_0000
    ensures 512 <= (512 * k) * n <= 0x20_0000_0000 && (512 * k) * n % 512 == 0
  {
    assert (512 * k) * n == 512 * (k * n);
    MulMonotone(1, k, n);
    MulMonotone(k, 8, n);
  }

  lemma Pow2Of25()
    ensures Pow2(25) == 0x200_0000
  {
    assert Pow2(5) == 32;
    Pow2Add(5, 5);
    Pow2Add(10, 10);
    Pow2Add(20, 5);
  }

  /** Decodes and validates the boot sector. */
  function Parse(data: seq<Byte>): Result<ExFatBoot> {
    if |data| < 512 || data[3..11] != [0x45, 0x58, 0x46, 0x41, 0x54, 0x20, 0x20, 0x20] || U16At(data, 0x1FE) != 0xAA55
    then Err(InvalidFormat)
    else if data[0x6C] >= 32 || !(512 <= Pow2(data[0x6C]) <= 4096) then Err(InvalidFormat)
    else if data[0x6D] > 25 || !(1 <= data[0x6E] <= 2) then Err(InvalidFormat)
    else
      var fatOffset, fatLength, heap := U32At(data, 0x50), U32At(data, 0x54), U32At(data, 0x58);
      var clusterCount, root := U32At(data, 0x5C), U32At(data, 0x60);
      var fats := data[0x6E];
      if fatOffset == 0 || fatLength == 0 || heap == 0 || clusterCount == 0 then Err(InvalidFormat)
      else if fatOffset + fatLength * fats >= 0x1_0000_0000 then Err(Panic)
      else if heap < fatOffset + fatLength * fats || root < 2 then Err(InvalidFormat)
      else if clusterCount == 0xFFFF_FFFF then Err(Panic)
      else if root > clusterCount + 1 then Err(InvalidFormat)
      else Ok(ExFatBoot(Pow2(data[0x6C]), data[0x6D], fatOffset, heap, clusterCount, root))
  }

  lemma ParsedIsValid(data: seq<Byte>)
    requires Parse(data).Ok?
    ensures Parse(data).value.Valid()
    ensures Parse(data).value.rootDirectoryCluster <= Parse(data).value.clusterCount + 1
  {
    var shift := data[0x6C];
    assert Pow2(8) == 256;
    assert Pow2(9) == 512 && Pow2(10) == 1024 && Pow2(11) == 2048 && Pow2(12) == 4096 by {
      Pow2Add(8, 1);
      Pow2Add(8, 2);
      Pow2Add(8, 3);
      Pow2Add(8, 4);
      assert Pow2(1) == 2 && Pow2(2) == 4 && Pow2(3) == 8 && Pow2(4) == 16;
    }
    if shift < 9 {
      Pow2Monotone(shift, 8);
    } else if shift > 12 {
      assert Pow2(13) == 2 * Pow2(12);
      Pow2Monotone(13, shift);
    }
  }

  const RULES: FatRules := FatRules(0xFFFF_FFF7, 0xFFFF_FFF8)

  datatype ExFatReader = ExFatReader(boot: ExFatBoot, partitionOffset: U64) {

    function ReadRelative(img: Image, offset: U64, size: nat): (r: Result<seq<Byte>>)
      ensures r.Ok? ==> |r.value| == size
    {
      match CheckedAdd(offset, partitionOffset)
      case None => Err(Io)
      case Some(absolute) => ReadAt(img, absolute, size)
    }

    /** The table entry of a cluster; the last cluster number of the volume is out of range. */
    function ReadFatEntry(img: Image, cluster: U32): Result<U32>
      requires boot.Valid()
    {
      if cluster < 2 || cluster > boot.clusterCount then Err(InvalidFormat)
      else
        MulMonotone(boot.fatOffset, 0xFFFF_FFFF, boot.bytesPerSector);
        var raw :- ReadRelative(img, boot.fatOffset * boot.bytesPerSector + cluster * 4, 4);
        Ok(U32At(raw, 0))
    }

    function Table(img: Image): Fat
      requires boot.Valid()
    {
      (cluster: U32) => ReadFatEntry(img, cluster)
    }

    function ChainOf(img: Image, start: U32, maxClusters: U64): Result<seq<U32>>
      requires boot.Valid()
    {
      if start == 0 then Ok([]) else Walk(Table(img), RULES, start, maxClusters)
    }

    method WalkChain(img: Image, start: U32, maxClusters: U64) returns (r: Result<seq<U32>>)
      requires boot.Valid()
      ensures r == ChainOf(img, start, maxClusters)
    {
      if start == 0 {
        return Ok([]);
      }
      var chain: seq<U32> := [];
      var seen: set<U32> := {};
      var cluster := start;
      PrependNothing(Walk(Table(img), RULES, start, maxClusters));
      while true
        invariant Walk(Table(img), RULES, start, maxClusters)
               == Prepend(chain, WalkFrom(Table(img), RULES, cluster, seen, maxClusters, |chain|))
        decreases maxClusters - |chain|
      {
        ghost var before := chain;
        chain := chain + [cluster];
        if |chain| >= maxClusters {
          break;
        }
        if cluster in seen {
          break;
        }
        var entry := ReadFatEntry(img, cluster);
        if entry.Err? {
          return Err(entry.error);
        }
        if RULES.Terminates(entry.value) {
          break;
        }
        PrependTwice(before, [cluster],
          WalkFrom(Table(img), RULES, entry.value, seen + {cluster}, maxClusters, |chain|));
        seen := seen + {cluster};
        cluster := entry.value;
      }
      r := Ok(chain);
    }

    function ClusterExtent(cluster: U32): Result<Extent>
      requires boot.Valid()
    {
      match boot.ClusterByteOffset(cluster)
      case None => Err(InvalidFormat)
      case Some(offset) =>
        match CheckedAdd(offset, partitionOffset)
        case None => Err(Io)
        case Some(absolute) => Ok(Extent(absolute, boot.ClusterSize()))
    }

    function ClusterExtents(chain: seq<U32>): (es: seq<Result<Extent>>)
      requires boot.Valid()
      ensures |es| == |chain|
    {
      seq(|chain|, i requires 0 <= i < |chain| => ClusterExtent(chain[i]))
    }

    function ReadCluster(img: Image, cluster: U32, size: nat): Result<seq<Byte>>
      requires boot.Valid()
    {
      if size > boot.ClusterSize() then Err(InvalidFormat)
      else
        match boot.ClusterByteOffset(cluster)
        case None => Err(InvalidFormat)
        case Some(offset) => ReadRelative(img, offset, size)
    }

    /** The first `maxBytes` bytes of the chain that starts at `start`. */
    function ChainContent(img: Image, start: U32, maxBytes: U64): Result<seq<Byte>>
      requires boot.Valid()
    {
      ClusterSizeFits(boot);
      BudgetFits(maxBytes, boot.ClusterSize());
      var chain :- ChainOf(img, start, DivCeil(maxBytes, boot.ClusterSize()));
      GatherExtents(img, ClusterExtents(chain), maxBytes)
    }

    /** The chain recorded for a file: bounded by its size, empty when it cannot be followed. */
    function FileChain(img: Image, cluster: U32, size: U64): seq<U32>
      requires boot.Valid()
    {
      if cluster < 2 || size == 0 then []
      else
        ClusterSizeFits(boot);
        BudgetFits(size, boot.ClusterSize());
        var walked := ChainOf(img, cluster, Max(DivCeil(size, boot.ClusterSize()), 1));
        if walked.Ok? then walked.value else []
    }

    /** Appends the content to `out`. */
    method ReadChain(img: Image, start: U32, maxBytes: U64, out: seq<Byte>) returns (r: Result<seq<Byte>>)
      requires boot.Valid()
      ensures r == Prepend(out, ChainContent(img, start, maxBytes))
    {
      ClusterSizeFits(boot);
      var clusterSize := boot.ClusterSize();
      BudgetFits(maxBytes, clusterSize);
      var walked := WalkChain(img, start, DivCeil(maxBytes, clusterSize));
      if walked.Err? {
        return Err(walked.error);
      }
      var chain := walked.value;
      ghost var extents := ClusterExtents(chain);
      var data: seq<Byte> := [];
      var remaining := maxBytes;
      var i := 0;
      assert extents[i..] == extents;
      PrependNothing(GatherExtents(img, extents, maxBytes));
      while i < |chain|
        invariant i <= |chain| && 0 <= remaining <= maxBytes
        invariant GatherExtents(img, extents, maxBytes) == Prepend(data, GatherExtents(img, extents[i..], remaining))
      {
        if remaining == 0 {
          break;
        }
        var chunk := Min(remaining, clusterSize);
        var buffer := ReadCluster(img, chain[i], chunk);
        if buffer.Err? {
          return Err(buffer.error);
        }
        ExtentStep(img, extents, i, data, remaining, buffer.value);
        data := data + buffer.value;
        remaining := remaining - chunk;
        i := i + 1;
      }
      assert data + [] == data;
      r := Ok(out + data);
    }
  }
}
