/** ext4 content: extents to gap-filled segments, and the block map that recovery then follows. */
module Ext4Content {
  import opened Machine
  import opened Evidence
  import opened ForensicModel
  import opened Sequences
  import opened RecoveryEngine
  import opened Ext4Extents
  import opened Sorting

  function RegionForExtent(extent: Ext4Extent, sectorsPerBlock: U64): Option<PhysicalRegion> {
    if !extent.initialized || extent.length == 0 then None
    else
      var last := SaturatingSub(Min(extent.physicalBlock + extent.length, U64_MAX), 1);
      var sectorStart := CheckedMul(extent.physicalBlock, sectorsPerBlock);
      var lastStart := CheckedMul(last, sectorsPerBlock);
      if sectorStart.None? || lastStart.None? then None
      else
        match CheckedAdd(lastStart.value, SaturatingSub(sectorsPerBlock, 1))
        case None => None
        case Some(sectorEnd) =>
          Some(PhysicalRegion.FromRanges(extent.physicalBlock, last, sectorStart.value, sectorEnd))
  }

  function ExtentSource(extent: Ext4Extent, sectorsPerBlock: U64): ContentSource {
    match RegionForExtent(extent, sectorsPerBlock)
    case Some(region) => Physical(region)
    case None => Sparse
  }

  /** The logical block behind the extents when they are laid out from `start`. */
  function EndOf(extents: seq<Ext4Extent>, start: nat): nat {
    if extents == [] then start
    else if extents[0].length == 0 then EndOf(extents[1..], start)
    else EndOf(extents[1..], Max(start, extents[0].logicalBlock) + extents[0].length)
  }

  /** The hole before an extent, if any, and the extent itself. */
  function Placed(extent: Ext4Extent, sectorsPerBlock: U64, start: nat): seq<ContentSegment>
    requires Max(start, extent.logicalBlock) + extent.length < U64_LIMIT
  {
    (if extent.logicalBlock > start then [ContentSegment(start, extent.logicalBlock - start, Sparse)] else [])
    + [ContentSegment(Max(start, extent.logicalBlock), extent.length, ExtentSource(extent, sectorsPerBlock))]
  }

  function ExtentSegments(extents: seq<Ext4Extent>, sectorsPerBlock: U64, start: nat): seq<ContentSegment>
    requires EndOf(extents, start) < U64_LIMIT
  {
    if extents == [] then []
    else if extents[0].length == 0 then ExtentSegments(extents[1..], sectorsPerBlock, start)
    else
      EndGrows(extents[1..], Max(start, extents[0].logicalBlock) + extents[0].length);
      Placed(extents[0], sectorsPerBlock, start)
      + ExtentSegments(extents[1..], sectorsPerBlock, Max(start, extents[0].logicalBlock) + extents[0].length)
  }

  lemma {:induction false} EndGrows(extents: seq<Ext4Extent>, start: nat)
    ensures EndOf(extents, start) >= start
  {
    if extents != [] {
      EndGrows(extents[1..], if extents[0].length == 0 then start
                             else Max(start, extents[0].logicalBlock) + extents[0].length);
    }
  }

  function LayoutOf(data: Option<seq<Byte>>, extents: seq<Ext4Extent>, bytesPerBlock: U64,
      sectorsPerBlock: U64): ContentLayout
    requires EndOf(extents, 0) < U64_LIMIT
  {
    if bytesPerBlock == 0 || sectorsPerBlock == 0 then ContentLayout.Empty()
    else if data.Some? then ContentLayout(bytesPerBlock, [InlineSegment(data.value, bytesPerBlock)])
    else ContentLayout(bytesPerBlock, ExtentSegments(extents, sectorsPerBlock, 0))
  }

  lemma NextExtent(extents: seq<Ext4Extent>, i: nat, s: U64, start: nat)
    requires i < |extents| && EndOf(extents[i..], start) < U64_LIMIT
    ensures var next :=
        if extents[i].length == 0 then start else Max(start, extents[i].logicalBlock) + extents[i].length;
      && next <= EndOf(extents[i + 1..], next) == EndOf(extents[i..], start)
      && ExtentSegments(extents[i..], s, start)
         == (if extents[i].length == 0 then [] else Placed(extents[i], s, start))
           + ExtentSegments(extents[i + 1..], s, next)
  {
    assert extents[i..][1..] == extents[i + 1..];
    EndGrows(extents[i + 1..], if extents[i].length == 0 then start
                               else Max(start, extents[i].logicalBlock) + extents[i].length);
  }

  method BuildContentLayout(data: Option<seq<Byte>>, extents: seq<Ext4Extent>, bytesPerBlock: U64, sectorsPerBlock: U64)
    returns (layout: ContentLayout)
    requires EndOf(extents, 0) < U64_LIMIT
    ensures layout == LayoutOf(data, extents, bytesPerBlock, sectorsPerBlock)
  {
    if bytesPerBlock == 0 || sectorsPerBlock == 0 {
      return ContentLayout.Empty();
    }
    if data.Some? {
      return ContentLayout(bytesPerBlock, [InlineSegment(data.value, bytesPerBlock)]);
    }
    var segments: seq<ContentSegment> := [];
    var logicalClusterStart: nat := 0;
    assert extents[0..] == extents;
    for i := 0 to |extents|
      invariant logicalClusterStart <= EndOf(extents[i..], logicalClusterStart) == EndOf(extents, 0)
      invariant ExtentSegments(extents, sectorsPerBlock, 0)
             == segments + ExtentSegments(extents[i..], sectorsPerBlock, logicalClusterStart)
    {
      var extent := extents[i];
      NextExtent(extents, i, sectorsPerBlock, logicalClusterStart);
      if extent.length == 0 {
        continue;
      }
      ghost var before, start := segments, logicalClusterStart;
      Associates(before, Placed(extent, sectorsPerBlock, start),
                 ExtentSegments(extents[i + 1..], sectorsPerBlock, Max(start, extent.logicalBlock) + extent.length));
      if extent.logicalBlock > logicalClusterStart {
        var gap := extent.logicalBlock - logicalClusterStart;
        segments := segments + [ContentSegment(logicalClusterStart, gap, Sparse)];
        logicalClusterStart := extent.logicalBlock;
      }
      var region := RegionForExtent(extent, sectorsPerBlock);
      segments := segments + [ContentSegment(logicalClusterStart, extent.length,
                                             if region.Some? then Physical(region.value) else Sparse)];
      logicalClusterStart := logicalClusterStart + extent.length;
      assert segments == before + Placed(extent, sectorsPerBlock, start);
    }
    layout := ContentLayout(bytesPerBlock, segments);
  }

  // ----- placement -----

  /** Segments cover the blocks from `start` on without gap or overlap. */
  ghost predicate Tiles(segments: seq<ContentSegment>, start: nat, end: nat) {
    if segments == [] then start == end
    else segments[0].logicalClusterStart == start && Tiles(segments[1..], start + segments[0].clusterCount, end)
  }

  lemma {:induction false} TilesAppend(a: seq<ContentSegment>, b: seq<ContentSegment>, start: nat, middle: nat,
      end: nat)
    requires Tiles(a, start, middle) && Tiles(b, middle, end)
    ensures Tiles(a + b, start, end)
  {
    if a == [] {
      assert a + b == b;
    } else {
      assert (a + b)[1..] == a[1..] + b;
      TilesAppend(a[1..], b, start + a[0].clusterCount, middle, end);
    }
  }

  /** On any extents, the segments tile the blocks up to the end of the layout. */
  lemma {:induction false} SegmentsTile(extents: seq<Ext4Extent>, s: U64, start: nat)
    requires EndOf(extents, start) < U64_LIMIT
    ensures Tiles(ExtentSegments(extents, s, start), start, EndOf(extents, start))
  {
    if extents != [] {
      if extents[0].length == 0 {
        SegmentsTile(extents[1..], s, start);
      } else {
        var next := Max(start, extents[0].logicalBlock) + extents[0].length;
        EndGrows(extents[1..], next);
        SegmentsTile(extents[1..], s, next);
        var placed := Placed(extents[0], s, start);
        assert Tiles(placed[1..], start + placed[0].clusterCount, next);
        TilesAppend(placed, ExtentSegments(extents[1..], s, next), start, next, EndOf(extents, start));
      }
    }
  }

  /** Sorted and non-overlapping, empty extents aside. */
  ghost predicate NonOverlapping(extents: seq<Ext4Extent>) {
    forall i, j | 0 <= i < j < |extents| && extents[i].length > 0 && extents[j].length > 0 ::
      extents[i].logicalBlock + extents[i].length <= extents[j].logicalBlock
  }

  /** Every non-empty extent finds its logical position when laid out from `start`. */
  ghost predicate AllInPlace(extents: seq<Ext4Extent>, start: nat) {
    extents == [] ||
    if extents[0].length == 0 then AllInPlace(extents[1..], start)
    else
      && Max(start, extents[0].logicalBlock) == extents[0].logicalBlock
      && AllInPlace(extents[1..], extents[0].logicalBlock + extents[0].length)
  }

  /** Every extent's segment lies at the extent's own logical block exactly when the extents are sorted and do not
      overlap and none begins before `start`. */
  lemma {:induction false} PlacementIsExact(extents: seq<Ext4Extent>, start: nat)
    ensures AllInPlace(extents, start) <==>
      NonOverlapping(extents)
        && forall i | 0 <= i < |extents| && extents[i].length > 0 :: start <= extents[i].logicalBlock
  {
    if extents != [] {
      var first, rest := extents[0], extents[1..];
      assert forall i | 0 < i < |extents| :: extents[i] == rest[i - 1];
      if first.length == 0 {
        PlacementIsExact(rest, start);
        assert NonOverlapping(extents) <==> NonOverlapping(rest);
      } else {
        PlacementIsExact(rest, first.logicalBlock + first.length);
      }
    }
  }

  // ----- the block map -----

  datatype BlockSource = Hole | Mapped(block: nat)

  /** Where logical block b of a file lives according to its extents; unwritten extents and gaps are holes. */
  function Lookup(extents: seq<Ext4Extent>, b: nat): BlockSource {
    if extents == [] then Hole
    else if extents[0].logicalBlock <= b < extents[0].logicalBlock + extents[0].length
    then (if extents[0].initialized then Mapped(extents[0].physicalBlock + (b - extents[0].logicalBlock)) else Hole)
    else Lookup(extents[1..], b)
  }

  function Holes(n: nat): (s: seq<BlockSource>)
    ensures |s| == n
  {
    seq(n, _ => Hole)
  }

  function ExtentBlocks(extent: Ext4Extent): (s: seq<BlockSource>)
    ensures |s| == extent.length
  {
    if extent.initialized then seq(extent.length, (i: nat) => Mapped(extent.physicalBlock + i))
    else Holes(extent.length)
  }

  /** The blocks of the layout in order, one group per segment. */
  function BlockGroups(extents: seq<Ext4Extent>, start: nat): seq<seq<BlockSource>> {
    if extents == [] then []
    else if extents[0].length == 0 then BlockGroups(extents[1..], start)
    else
      PlacedGroups(extents[0], start)
      + BlockGroups(extents[1..], Max(start, extents[0].logicalBlock) + extents[0].length)
  }

  /** The groups of one extent: the hole in front of it, if any, and its own blocks. */
  function PlacedGroups(extent: Ext4Extent, start: nat): seq<seq<BlockSource>> {
    (if extent.logicalBlock > start then [Holes(extent.logicalBlock - start)] else []) + [ExtentBlocks(extent)]
  }

  lemma LookupMisses(extents: seq<Ext4Extent>, b: nat)
    requires forall i | 0 <= i < |extents| && extents[i].length > 0 :: b < extents[i].logicalBlock
    ensures Lookup(extents, b) == Hole
  {}

  /** For sorted, non-overlapping extents the laid-out blocks are the block map. */
  lemma {:induction false} LayoutIsTheBlockMap(extents: seq<Ext4Extent>, start: nat)
    requires AllInPlace(extents, start)
    ensures |Flatten(BlockGroups(extents, start))| == EndOf(extents, start) - start
    ensures forall k | 0 <= k < |Flatten(BlockGroups(extents, start))| ::
      Flatten(BlockGroups(extents, start))[k] == Lookup(extents, start + k)
  {
    if extents != [] {
      var first, rest := extents[0], extents[1..];
      if first.length == 0 {
        LayoutIsTheBlockMap(rest, start);
      } else {
        var next := first.logicalBlock + first.length;
        LayoutIsTheBlockMap(rest, next);
        PlacementIsExact(rest, next);
        var later := BlockGroups(rest, next);
        assert extents == [first] + rest;
        BlocksOfFirst(first, rest, start);
        var gap := first.logicalBlock - start;
        var blocks := Flatten(BlockGroups(extents, start));
        forall k | 0 <= k < |blocks| ensures blocks[k] == Lookup(extents, start + k) {
          if k < gap {
            LookupMisses(rest, start + k);
          } else if k >= gap + first.length {
            assert blocks[k] == Flatten(later)[k - gap - first.length];
          }
        }
      }
    }
  }

  lemma BlocksOfFirst(first: Ext4Extent, rest: seq<Ext4Extent>, start: nat)
    requires first.length > 0 && start <= first.logicalBlock
    ensures Flatten(BlockGroups([first] + rest, start))
         == Holes(first.logicalBlock - start) + ExtentBlocks(first)
            + Flatten(BlockGroups(rest, first.logicalBlock + first.length))
  {
    var gap, later := Holes(first.logicalBlock - start), BlockGroups(rest, first.logicalBlock + first.length);
    assert ([first] + rest)[1..] == rest;
    FlattenTwo(if first.logicalBlock > start then [gap] else [], ExtentBlocks(first), later);
    if first.logicalBlock > start {
      assert Flatten([gap]) == gap + Flatten<BlockSource>([]);
    } else {
      assert gap == [];
    }
  }

  lemma FlattenTwo<T>(a: seq<seq<T>>, b: seq<T>, c: seq<seq<T>>)
    ensures Flatten(a + [b] + c) == Flatten(a) + b + Flatten(c)
  {
    FlattenAppend(a + [b], c);
    FlattenAppend(a, [b]);
    assert Flatten([b]) == b + Flatten<T>([]);
  }

  // ----- physical regions -----

  function RegionsOf(extents: seq<Ext4Extent>, sectorsPerBlock: U64): seq<PhysicalRegion> {
    if extents == [] then []
    else
      (match RegionForExtent(extents[0], sectorsPerBlock)
       case Some(region) => [region]
       case None => [])
      + RegionsOf(extents[1..], sectorsPerBlock)
  }

  lemma NextRegion(extents: seq<Ext4Extent>, i: nat, done: seq<PhysicalRegion>, s: U64)
    requires i < |extents|
    ensures var region := RegionForExtent(extents[i], s);
      done + RegionsOf(extents[i..], s)
        == (if region.Some? then done + [region.value] else done) + RegionsOf(extents[i + 1..], s)
  {
    assert extents[i..][1..] == extents[i + 1..];
  }

  method BuildPhysicalLocation(extents: seq<Ext4Extent>, sectorsPerBlock: U64) returns (regions: seq<PhysicalRegion>)
    ensures regions == if sectorsPerBlock == 0 then [] else RegionsOf(extents, sectorsPerBlock)
  {
    regions := [];
    if sectorsPerBlock == 0 {
      return;
    }
    assert extents[0..] == extents;
    for i := 0 to |extents|
      invariant RegionsOf(extents, sectorsPerBlock) == regions + RegionsOf(extents[i..], sectorsPerBlock)
    {
      NextRegion(extents, i, regions, sectorsPerBlock);
      var region := RegionForExtent(extents[i], sectorsPerBlock);
      if region.Some? {
        regions := regions + [region.value];
      }
    }
  }

  lemma {:induction false} PhysicalSegmentsAppend(a: seq<ContentSegment>, b: seq<ContentSegment>)
    ensures PhysicalSegments(a + b) == PhysicalSegments(a) + PhysicalSegments(b)
  {
    if a == [] {
      assert a + b == b;
    } else {
      assert a == [a[0]] + a[1..] && a + b == [a[0]] + (a[1..] + b);
      PhysicalSegmentsCons(a[0], a[1..]);
      PhysicalSegmentsCons(a[0], a[1..] + b);
      PhysicalSegmentsAppend(a[1..], b);
    }
  }

  /** The regions reported beside the layout are exactly its physical segments, in order. */
  lemma {:induction false} RegionsAreThePhysicalSegments(extents: seq<Ext4Extent>, s: U64, start: nat)
    requires EndOf(extents, start) < U64_LIMIT
    ensures RegionsOf(extents, s) == PhysicalSegments(ExtentSegments(extents, s, start))
  {
    if extents != [] {
      if extents[0].length == 0 {
        RegionsAreThePhysicalSegments(extents[1..], s, start);
      } else {
        var next := Max(start, extents[0].logicalBlock) + extents[0].length;
        EndGrows(extents[1..], next);
        RegionsAreThePhysicalSegments(extents[1..], s, next);
        var placed := Placed(extents[0], s, start);
        PhysicalSegmentsAppend(placed, ExtentSegments(extents[1..], s, next));
        assert PhysicalSegments(placed) == RegionsOf([extents[0]], s) by {
          if |placed| == 2 {
            assert placed[1..][1..] == [];
          }
        }
      }
    }
  }

  // ----- reading -----

  /** An extent that maps blocks has a sector range within 64 bits. */
  predicate Representable(extent: Ext4Extent, s: U64) {
    extent.initialized && extent.length > 0 ==> RegionForExtent(extent, s).Some?
  }

  ghost predicate AllRepresentable(extents: seq<Ext4Extent>, s: U64) {
    forall i | 0 <= i < |extents| :: Representable(extents[i], s)
  }

  function BlockPart(img: Image, partitionOffset: nat, blockSize: nat, block: BlockSource): Result<seq<Byte>> {
    match block
    case Hole => Ok(Zeros(blockSize))
    case Mapped(b) =>
      MulNonNegative(b, blockSize);
      ReadRange(img, partitionOffset + b * blockSize, blockSize)
  }

  function BlockParts(img: Image, partitionOffset: nat, blockSize: nat,
      blocks: seq<BlockSource>): (s: seq<Result<seq<Byte>>>)
    ensures |s| == |blocks|
  {
    seq(|blocks|, i requires 0 <= i < |blocks| => BlockPart(img, partitionOffset, blockSize, blocks[i]))
  }

  lemma {:induction false} HolesReadZero(img: Image, po: nat, bs: nat, n: nat, size: nat)
    requires size == n * bs
    ensures Gather(BlockParts(img, po, bs, Holes(n)), None) == Ok(Zeros(size))
  {
    var parts := BlockParts(img, po, bs, Holes(n));
    if n > 0 {
      OneLess(n, bs);
      MulNonNegative(n - 1, bs);
      HolesReadZero(img, po, bs, n - 1, size - bs);
      assert parts[1..] == BlockParts(img, po, bs, Holes(n - 1));
      assert Zeros(bs) + Zeros(size - bs) == Zeros(size);
    }
  }

  lemma {:induction false} MappedAreUnits(img: Image, po: nat, bs: nat, first: nat, n: nat, from: nat)
    requires from == po + first * bs
    ensures BlockParts(img, po, bs, seq(n, (i: nat) => Mapped(first + i))) == UnitParts(img, from, bs, n)
    decreases n
  {
    if n > 0 {
      var blocks := seq(n, (i: nat) => Mapped(first + i));
      assert (first + 1) * bs == first * bs + bs;
      MappedAreUnits(img, po, bs, first + 1, n - 1, from + bs);
      assert blocks[1..] == seq(n - 1, (i: nat) => Mapped(first + 1 + i));
      assert BlockParts(img, po, bs, blocks)[1..] == BlockParts(img, po, bs, blocks[1..]);
      assert BlockParts(img, po, bs, blocks)[0] == ReadRange(img, from, bs);
    }
  }

  lemma RegionIsExact(extent: Ext4Extent, s: U64)
    requires 0 < s < 0x80_0000 && OnDisk(extent) && extent.initialized && extent.length > 0 && Representable(extent, s)
    ensures var region := RegionForExtent(extent, s);
      && region.value.offset == None
      && region.value.sectorStart == Some(extent.physicalBlock * s)
      && region.value.SectorCount() == Some(extent.length * s)
  {
    var first, last := extent.physicalBlock, extent.physicalBlock + extent.length - 1;
    MulMonotone(extent.length, 0x8000, s);
    assert last * s == first * s + (extent.length - 1) * s;
    OneLess(extent.length, s);
    MulNonNegative(first, s);
    MulNonNegative(extent.length - 1, s);
  }

  /** The segment reads what its group of blocks reads. */
  ghost predicate SegmentIsGroup(e: Engine, img: Image, blockSize: U64, group: seq<BlockSource>,
      segment: ContentSegment) {
    SameContent(Gather(BlockParts(img, e.partitionOffset, blockSize, group), None),
      e.ReadContentSegment(img, blockSize, segment))
  }

  lemma SparseIsGroup(e: Engine, img: Image, s: U64, n: nat, segment: ContentSegment)
    requires 0 < s < 0x80_0000 && n < 0x1_0000_0000 && segment.clusterCount == n && segment.source == Sparse
    ensures SegmentIsGroup(e, img, 512 * s, Holes(n), segment)
  {
    MulMonotone(n, 0x1_0000_0000, 512 * s);
    HolesReadZero(img, e.partitionOffset, 512 * s, n, n * (512 * s));
  }

  /** The physical segment of an extent reads one range. */
  lemma ExtentReadsRange(e: Engine, img: Image, s: U64, extent: Ext4Extent, segment: ContentSegment)
    requires 0 < s < 0x80_0000 && e.bytesPerSector == 512 && OnDisk(extent) && extent.length > 0 && extent.initialized
    requires Representable(extent, s)
    requires segment.clusterCount == extent.length && segment.source == ExtentSource(extent, s)
    ensures 0 <= extent.physicalBlock * (512 * s) && 0 <= extent.length * (512 * s)
    ensures SameContent(
      ReadRange(img, e.partitionOffset + extent.physicalBlock * (512 * s), extent.length * (512 * s)),
      e.ReadContentSegment(img, 512 * s, segment))
  {
    RegionIsExact(extent, s);
    MulNonNegative(extent.physicalBlock, 512 * s);
    MulNonNegative(extent.length, 512 * s);
    assert extent.physicalBlock * s * 512 == extent.physicalBlock * (512 * s);
    assert extent.length * s * 512 == extent.length * (512 * s);
  }

  /** So does its group of blocks. */
  lemma BlocksReadRange(img: Image, po: nat, bs: nat, extent: Ext4Extent)
    requires bs > 0 && extent.length > 0 && extent.initialized
    ensures 0 <= extent.physicalBlock * bs && 0 <= extent.length * bs
    ensures SameContent(ReadRange(img, po + extent.physicalBlock * bs, extent.length * bs),
                        Gather(BlockParts(img, po, bs, ExtentBlocks(extent)), None))
  {
    MulNonNegative(extent.physicalBlock, bs);
    MulNonNegative(extent.length, bs);
    MappedAreUnits(img, po, bs, extent.physicalBlock, extent.length, po + extent.physicalBlock * bs);
    UnitsAreOneRange(img, po + extent.physicalBlock * bs, bs, extent.length, extent.length * bs);
  }

  lemma ExtentIsGroup(e: Engine, img: Image, s: U64, extent: Ext4Extent, segment: ContentSegment)
    requires 0 < s < 0x80_0000 && e.bytesPerSector == 512 && OnDisk(extent) && extent.length > 0
    requires Representable(extent, s)
    requires segment.clusterCount == extent.length && segment.source == ExtentSource(extent, s)
    ensures SegmentIsGroup(e, img, 512 * s, ExtentBlocks(extent), segment)
  {
    if extent.initialized {
      ExtentReadsRange(e, img, s, extent, segment);
      BlocksReadRange(img, e.partitionOffset, 512 * s, extent);
    } else {
      SparseIsGroup(e, img, s, extent.length, segment);
    }
  }

  /** Segment by segment, the segments read what the groups read. */
  ghost predicate SegmentsAreGroups(e: Engine, img: Image, blockSize: U64, groups: seq<seq<BlockSource>>,
                                    segments: seq<ContentSegment>) {
    |segments| == |groups|
    && forall i | 0 <= i < |segments| :: SegmentIsGroup(e, img, blockSize, groups[i], segments[i])
  }

  lemma GroupsAppend(e: Engine, img: Image, blockSize: U64, groups: seq<seq<BlockSource>>,
                     segments: seq<ContentSegment>, moreGroups: seq<seq<BlockSource>>, more: seq<ContentSegment>)
    requires SegmentsAreGroups(e, img, blockSize, groups, segments)
    requires SegmentsAreGroups(e, img, blockSize, moreGroups, more)
    ensures SegmentsAreGroups(e, img, blockSize, groups + moreGroups, segments + more)
  {}

  /** What an extent is placed as reads its gap and its blocks. */
  lemma PlacedReadsBlocks(e: Engine, img: Image, extent: Ext4Extent, s: U64, start: nat)
    requires 0 < s < 0x80_0000 && e.bytesPerSector == 512 && OnDisk(extent) && Representable(extent, s)
    requires extent.length > 0 && Max(start, extent.logicalBlock) + extent.length < U64_LIMIT
    ensures SegmentsAreGroups(e, img, 512 * s, PlacedGroups(extent, start), Placed(extent, s, start))
  {
    var placed := Placed(extent, s, start);
    ExtentIsGroup(e, img, s, extent, placed[|placed| - 1]);
    if extent.logicalBlock > start {
      SparseIsGroup(e, img, s, extent.logicalBlock - start, placed[0]);
    }
  }

  /** Segment by segment, the layout reads the blocks of its extents. */
  lemma {:induction false} SegmentsReadBlocks(e: Engine, img: Image, extents: seq<Ext4Extent>, s: U64, start: nat)
    requires 0 < s < 0x80_0000 && e.bytesPerSector == 512 && AllOnDisk(extents) && AllRepresentable(extents, s)
    requires EndOf(extents, start) < U64_LIMIT
    ensures SegmentsAreGroups(e, img, 512 * s, BlockGroups(extents, start), ExtentSegments(extents, s, start))
  {
    if extents != [] {
      var first, rest := extents[0], extents[1..];
      if first.length == 0 {
        SegmentsReadBlocks(e, img, rest, s, start);
      } else {
        var next := Max(start, first.logicalBlock) + first.length;
        EndGrows(rest, next);
        SegmentsReadBlocks(e, img, rest, s, next);
        PlacedReadsBlocks(e, img, first, s, start);
        GroupsAppend(e, img, 512 * s, PlacedGroups(first, start), Placed(first, s, start), BlockGroups(rest, next),
                     ExtentSegments(rest, s, next));
      }
    }
  }

  /** The content of every block of the layout, in order. */
  function LayoutBlocks(img: Image, partitionOffset: nat, blockSize: nat,
      extents: seq<Ext4Extent>): seq<Result<seq<Byte>>> {
    BlockParts(img, partitionOffset, blockSize, Flatten(BlockGroups(extents, 0)))
  }

  function PartGroups(img: Image, po: nat, bs: nat, groups: seq<seq<BlockSource>>): (s: seq<seq<Result<seq<Byte>>>>)
    ensures |s| == |groups|
  {
    seq(|groups|, i requires 0 <= i < |groups| => BlockParts(img, po, bs, groups[i]))
  }

  lemma {:induction false} PartGroupsFlatten(img: Image, po: nat, bs: nat, groups: seq<seq<BlockSource>>)
    ensures Flatten(PartGroups(img, po, bs, groups)) == BlockParts(img, po, bs, Flatten(groups))
  {
    if groups != [] {
      PartGroupsFlatten(img, po, bs, groups[1..]);
      assert PartGroups(img, po, bs, groups)[1..] == PartGroups(img, po, bs, groups[1..]);
    }
  }

  lemma LayoutReadsBlocks(e: Engine, img: Image, extents: seq<Ext4Extent>, s: U64)
    requires 0 < s < 0x80_0000 && e.bytesPerSector == 512 && AllOnDisk(extents) && AllRepresentable(extents, s)
    requires EndOf(extents, 0) < U64_LIMIT
    ensures var parts := e.SegmentContents(img, ContentLayout(512 * s, ExtentSegments(extents, s, 0)));
            var blocks := LayoutBlocks(img, e.partitionOffset, 512 * s, extents);
      && ReadablePrefix(parts) <= ReadablePrefix(blocks)
      && (AllOk(parts) <==> AllOk(blocks))
      && (AllOk(parts) ==> ReadablePrefix(parts) == ReadablePrefix(blocks))
  {
    var segments, groups := ExtentSegments(extents, s, 0), BlockGroups(extents, 0);
    var parts := e.SegmentContents(img, ContentLayout(512 * s, segments));
    SegmentsReadBlocks(e, img, extents, s, 0);
    var partGroups := PartGroups(img, e.partitionOffset, 512 * s, groups);
    forall i | 0 <= i < |parts| ensures SameContent(Gather(partGroups[i], None), parts[i]) {
      assert SegmentIsGroup(e, img, 512 * s, groups[i], segments[i]);
    }
    GroupsReadFurther(partGroups, parts);
    GroupsReadAlike(partGroups, parts);
    PartGroupsFlatten(img, e.partitionOffset, 512 * s, groups);
    GatherAll(parts);
    GatherAll(Flatten(partGroups));
  }

  lemma {:induction false} EndIsBounded(extents: seq<Ext4Extent>, start: nat)
    requires AllOnDisk(extents) && AllInPlace(extents, start)
    ensures EndOf(extents, start) <= Max(start, 0x1_0000_8000)
  {
    if extents != [] {
      EndIsBounded(extents[1..], if extents[0].length == 0 then start else extents[0].logicalBlock + extents[0].length);
    }
  }

  /** Sorted, non-overlapping extents of the on-disk format never lay out past 64 bits. */
  lemma EndFits(extents: seq<Ext4Extent>)
    requires AllOnDisk(extents) && NonOverlapping(extents)
    ensures EndOf(extents, 0) < U64_LIMIT
  {
    PlacementIsExact(extents, 0);
    EndIsBounded(extents, 0);
  }

  /** The entry built for an inode with these extents. */
  ghost predicate ExtentEntry(entry: Entry, extents: seq<Ext4Extent>, s: U64, n: U64)
    requires AllOnDisk(extents) && NonOverlapping(extents) && 512 * s < U64_LIMIT
  {
    EndFits(extents);
    && entry.realSize == Some(n)
    && entry.layout == LayoutOf(None, extents, 512 * s, s)
    && entry.regions == RegionsOf(extents, s)
  }

  /** The value is what the block source holds at offset r: the image byte, or zero in a hole. */
  ghost predicate HoldsByte(img: Image, partitionOffset: nat, blockSize: nat, block: BlockSource, r: nat, value: Byte) {
    match block
    case Hole => value == 0
    case Mapped(b) => ImageByte(img, partitionOffset + b * blockSize + r, value)
  }

  ghost predicate ImageByte(img: Image, at: int, value: Byte) {
    0 <= at < |img| && img[at] == value
  }

  /** Every byte of the data is what the block map says: see `HoldsByte`. */
  ghost predicate FollowsBlockMap(img: Image, partitionOffset: nat, blockSize: nat, extents: seq<Ext4Extent>,
      data: seq<Byte>)
    requires blockSize > 0
  {
    forall p | 0 <= p < |data| :: FollowsAt(img, partitionOffset, blockSize, extents, p, data[p])
  }

  ghost predicate FollowsAt(img: Image, partitionOffset: nat, blockSize: nat, extents: seq<Ext4Extent>, p: nat,
      value: Byte)
    requires blockSize > 0
  {
    HoldsByte(img, partitionOffset, blockSize, Lookup(extents, p / blockSize), p % blockSize, value)
  }

  /** The laid-out blocks of sorted, non-overlapping extents are those of the block map. */
  lemma BlocksAreTheMap(img: Image, po: nat, bs: nat, extents: seq<Ext4Extent>)
    requires NonOverlapping(extents)
    ensures var blocks := LayoutBlocks(img, po, bs, extents);
      |blocks| == EndOf(extents, 0)
        && forall k | 0 <= k < |blocks| :: blocks[k] == BlockPart(img, po, bs, Lookup(extents, k))
  {
    PlacementIsExact(extents, 0);
    LayoutIsTheBlockMap(extents, 0);
    var sources := Flatten(BlockGroups(extents, 0));
    forall k | 0 <= k < |sources| ensures sources[k] == Lookup(extents, k) {
      assert sources[k] == Lookup(extents, 0 + k);
    }
  }

  lemma SplitPosition(p: nat, bs: nat)
    requires bs > 0
    ensures p == (p / bs) * bs + p % bs && 0 <= p / bs && 0 <= p % bs < bs
  {}

  /** Reading those blocks follows the block map. */
  lemma BlocksFollowTheMap(img: Image, po: nat, bs: nat, extents: seq<Ext4Extent>, blocks: seq<Result<seq<Byte>>>)
    requires bs > 0 && forall k | 0 <= k < |blocks| :: blocks[k] == BlockPart(img, po, bs, Lookup(extents, k))
    ensures FollowsBlockMap(img, po, bs, extents, ReadablePrefix(blocks))
    ensures |ReadablePrefix(blocks)| <= |blocks| * bs
    ensures AllOk(blocks) ==> |ReadablePrefix(blocks)| == |blocks| * bs
  {
    forall k | 0 <= k < |blocks| ensures blocks[k].Ok? ==> |blocks[k].value| == bs {
      PartSize(img, po, bs, Lookup(extents, k));
    }
    UnitTotal(blocks, bs);
    forall p | 0 <= p < |ReadablePrefix(blocks)|
      ensures FollowsAt(img, po, bs, extents, p, ReadablePrefix(blocks)[p])
    {
      SplitPosition(p, bs);
      ByteFollows(img, po, bs, extents, blocks, p / bs, p % bs, p);
    }
  }

  lemma ByteFollows(img: Image, po: nat, bs: nat, extents: seq<Ext4Extent>, blocks: seq<Result<seq<Byte>>>, q: nat,
      r: nat, p: nat)
    requires r < bs && p == q * bs + r && p < |ReadablePrefix(blocks)|
    requires forall k | 0 <= k < |blocks| :: blocks[k] == BlockPart(img, po, bs, Lookup(extents, k))
    ensures HoldsByte(img, po, bs, Lookup(extents, q), r, ReadablePrefix(blocks)[p])
  {
    forall k | 0 <= k < |blocks| ensures blocks[k].Ok? ==> |blocks[k].value| == bs {
      PartSize(img, po, bs, Lookup(extents, k));
    }
    UnitBytes(blocks, bs, q, r, p);
    PartHoldsByte(img, po, bs, Lookup(extents, q), r);
  }

  lemma PartSize(img: Image, po: nat, bs: nat, block: BlockSource)
    ensures BlockPart(img, po, bs, block).Ok? ==> |BlockPart(img, po, bs, block).value| == bs
  {}

  lemma PartHoldsByte(img: Image, po: nat, bs: nat, block: BlockSource, r: nat)
    requires r < bs
    ensures BlockPart(img, po, bs, block).Ok?
      ==> HoldsByte(img, po, bs, block, r, BlockPart(img, po, bs, block).value[r])
  {}

  lemma EmptyLayoutFails(e: Engine, img: Image, extents: seq<Ext4Extent>, s: U64, n: U64, entry: Entry)
    requires 0 < s && 512 * s < U64_LIMIT && AllOnDisk(extents) && NonOverlapping(extents)
    requires ExtentEntry(entry, extents, s, n) && n > 0 && entry.layout.segments == []
    ensures e.Outcome(img, entry) == Ok(Failed) && EndOf(extents, 0) == 0
  {
    EndFits(extents);
    RegionsAreThePhysicalSegments(extents, s, 0);
    SegmentsTile(extents, s, 0);
  }

  // ----- representable extents -----

  /** The recovered size: the recorded one, or everything when that is the engine's code for unknown. */
  ghost predicate HasSize(data: seq<Byte>, n: U64, total: nat) {
    |data| == if n == U64_MAX then total else n
  }

  lemma RecoveredIsContent(e: Engine, img: Image, entry: Entry, n: U64, data: seq<Byte>)
    requires entry.layout.segments != [] && entry.realSize == Some(n) && n > 0
    requires e.Outcome(img, entry) == Ok(Recovered(data))
    ensures data <= ReadablePrefix(e.SegmentContents(img, entry.layout))
    ensures if n == U64_MAX
            then AllOk(e.SegmentContents(img, entry.layout))
              && data == ReadablePrefix(e.SegmentContents(img, entry.layout))
            else |data| == n
  {
    GatherMeaning(e.SegmentContents(img, entry.layout), KnownSize(entry.realSize));
  }

  lemma PrefixFollows(img: Image, po: nat, bs: nat, extents: seq<Ext4Extent>, content: seq<Byte>, data: seq<Byte>)
    requires bs > 0 && FollowsBlockMap(img, po, bs, extents, content) && data <= content
    ensures FollowsBlockMap(img, po, bs, extents, data)
  {
    forall p | 0 <= p < |data| ensures FollowsAt(img, po, bs, extents, p, data[p]) {
      assert FollowsAt(img, po, bs, extents, p, content[p]);
    }
  }

  lemma RepresentableFollows(e: Engine, img: Image, extents: seq<Ext4Extent>, s: U64, bs: U64, n: U64, entry: Entry,
                             data: seq<Byte>)
    requires 0 < s < 0x80_0000 && bs == 512 * s && e.bytesPerSector == 512
    requires AllOnDisk(extents) && NonOverlapping(extents) && AllRepresentable(extents, s)
    requires ExtentEntry(entry, extents, s, n) && e.Outcome(img, entry) == Ok(Recovered(data)) && n > 0
    ensures HasSize(data, n, EndOf(extents, 0) * bs) && |data| <= EndOf(extents, 0) * bs
    ensures FollowsBlockMap(img, e.partitionOffset, bs, extents, data)
  {
    EndFits(extents);
    if entry.layout.segments == [] {
      EmptyLayoutFails(e, img, extents, s, n, entry);
    } else {
      var blocks := LayoutBlocks(img, e.partitionOffset, bs, extents);
      RecoveredIsContent(e, img, entry, n, data);
      LayoutReadsBlocks(e, img, extents, s);
      BlocksAreTheMap(img, e.partitionOffset, bs, extents);
      BlocksFollowTheMap(img, e.partitionOffset, bs, extents, blocks);
      PrefixFollows(img, e.partitionOffset, bs, extents, ReadablePrefix(blocks), data);
    }
  }

  // ----- extents beyond 64-bit sector ranges -----

  /** What an extent is laid out as: the source makes one without a 64-bit sector range sparse. */
  function Effective(extent: Ext4Extent, s: U64): Ext4Extent {
    if Representable(extent, s) then extent else extent.(initialized := false)
  }

  function AllEffective(extents: seq<Ext4Extent>, s: U64): (es: seq<Ext4Extent>)
    ensures |es| == |extents|
  {
    seq(|extents|, i requires 0 <= i < |extents| => Effective(extents[i], s))
  }

  lemma EffectiveIsRepresentable(extents: seq<Ext4Extent>, s: U64)
    requires AllOnDisk(extents) && NonOverlapping(extents)
    ensures AllOnDisk(AllEffective(extents, s)) && NonOverlapping(AllEffective(extents, s))
    ensures AllRepresentable(AllEffective(extents, s), s)
  {}

  lemma AllEffectiveTail(extents: seq<Ext4Extent>, s: U64)
    requires extents != []
    ensures AllEffective(extents, s)[1..] == AllEffective(extents[1..], s)
  {}

  lemma {:induction false} EffectiveEnd(extents: seq<Ext4Extent>, s: U64, start: nat)
    ensures EndOf(AllEffective(extents, s), start) == EndOf(extents, start)
  {
    if extents != [] {
      AllEffectiveTail(extents, s);
      EffectiveEnd(extents[1..], s, if extents[0].length == 0 then start
                                    else Max(start, extents[0].logicalBlock) + extents[0].length);
    }
  }

  lemma EffectiveSource(extent: Ext4Extent, s: U64)
    ensures extent.length > 0 ==> ExtentSource(Effective(extent, s), s) == ExtentSource(extent, s)
    ensures RegionForExtent(Effective(extent, s), s) == RegionForExtent(extent, s)
  {}

  /** The layout does not notice the difference. */
  lemma {:induction false} EffectiveSegments(extents: seq<Ext4Extent>, s: U64, start: nat)
    requires EndOf(extents, start) < U64_LIMIT
    ensures EndOf(AllEffective(extents, s), start) < U64_LIMIT
    ensures ExtentSegments(AllEffective(extents, s), s, start) == ExtentSegments(extents, s, start)
    decreases |extents|
  {
    EffectiveEnd(extents, s, start);
    if extents != [] {
      AllEffectiveTail(extents, s);
      if extents[0].length == 0 {
        EffectiveSegments(extents[1..], s, start);
      } else {
        var next := Max(start, extents[0].logicalBlock) + extents[0].length;
        EndGrows(extents[1..], next);
        EffectiveSource(extents[0], s);
        EffectiveSegments(extents[1..], s, next);
      }
    }
  }

  lemma {:induction false} EffectiveRegions(extents: seq<Ext4Extent>, s: U64)
    ensures RegionsOf(AllEffective(extents, s), s) == RegionsOf(extents, s)
  {
    if extents != [] {
      AllEffectiveTail(extents, s);
      EffectiveSource(extents[0], s);
      EffectiveRegions(extents[1..], s);
    }
  }

  lemma EffectiveEntry(entry: Entry, extents: seq<Ext4Extent>, s: U64, n: U64)
    requires AllOnDisk(extents) && NonOverlapping(extents) && 512 * s < U64_LIMIT && ExtentEntry(entry, extents, s, n)
    ensures AllOnDisk(AllEffective(extents, s)) && NonOverlapping(AllEffective(extents, s))
    ensures ExtentEntry(entry, AllEffective(extents, s), s, n)
  {
    EndFits(extents);
    EffectiveIsRepresentable(extents, s);
    EffectiveSegments(extents, s, 0);
    EffectiveRegions(extents, s);
  }

  /** With blocks of at most 16 MiB every extent of the on-disk format has a 64-bit sector range. */
  lemma SmallBlocksAreRepresentable(extents: seq<Ext4Extent>, s: U64)
    requires 0 < s <= 0x8000 && AllOnDisk(extents)
    ensures AllRepresentable(extents, s)
  {
    forall i | 0 <= i < |extents| ensures Representable(extents[i], s) {
      var first, last := extents[i].physicalBlock, extents[i].physicalBlock + extents[i].length;
      MulMonotone(first, 0x1_0000_0000_0000, s);
      MulMonotone(last, 0x1_0000_0000_8000, s);
      if extents[i].length > 0 {
        MulMonotone(last - 1, last, s);
        MulNonNegative(last - 1, s);
      }
      MulNonNegative(first, s);
    }
  }

  /** An extent without a 64-bit sector range lies beyond any image. */
  lemma UnrepresentableIsFar(extent: Ext4Extent, s: U64)
    requires 0 < s < 0x80_0000 && OnDisk(extent) && !Representable(extent, s)
    ensures extent.physicalBlock * (512 * s) >= U64_LIMIT
  {
    var first, n := extent.physicalBlock, extent.length;
    MulMonotone(n, 0x8000, s);
    assert (first + n - 1) * s == first * s + (n - 1) * s;
    OneLess(n, s);
    MulNonNegative(first, s);
    assert first * (512 * s) == 512 * (first * s);
  }

  /** The part of the data that starts at an unrepresentable extent is not reached. */
  ghost predicate ReachedRepresentable(extents: seq<Ext4Extent>, s: U64, bs: nat, size: nat) {
    forall i | 0 <= i < |extents| && !Representable(extents[i], s) :: UnreachedAt(extents[i], bs, size)
  }

  ghost predicate UnreachedAt(extent: Ext4Extent, bs: nat, size: nat) {
    extent.logicalBlock * bs >= size
  }

  /** In sorted, non-overlapping extents each maps its own blocks. */
  lemma {:induction false} LookupFinds(extents: seq<Ext4Extent>, i: nat)
    requires NonOverlapping(extents) && i < |extents| && extents[i].initialized && extents[i].length > 0
    ensures Lookup(extents, extents[i].logicalBlock) == Mapped(extents[i].physicalBlock)
  {
    if i > 0 {
      LookupFinds(extents[1..], i - 1);
    }
  }

  /** The block map changes only inside unrepresentable extents. */
  lemma {:induction false} EffectiveLookup(extents: seq<Ext4Extent>, s: U64, b: nat)
    requires forall i | 0 <= i < |extents| && !Representable(extents[i], s) :: b < extents[i].logicalBlock
    ensures Lookup(AllEffective(extents, s), b) == Lookup(extents, b)
  {
    if extents != [] {
      AllEffectiveTail(extents, s);
      EffectiveLookup(extents[1..], s, b);
    }
  }

  lemma BlockIsBefore(p: nat, bs: nat, block: nat)
    requires bs > 0 && p < block * bs
    ensures p / bs < block
  {
    SplitPosition(p, bs);
    if p / bs >= block {
      MulMonotone(block, p / bs, bs);
    }
  }

  lemma FollowsIfReachedRepresentable(img: Image, po: nat, s: U64, bs: nat, extents: seq<Ext4Extent>, data: seq<Byte>)
    requires bs > 0 && FollowsBlockMap(img, po, bs, AllEffective(extents, s), data)
    requires ReachedRepresentable(extents, s, bs, |data|)
    ensures FollowsBlockMap(img, po, bs, extents, data)
  {
    forall p | 0 <= p < |data| ensures FollowsAt(img, po, bs, extents, p, data[p]) {
      forall i | 0 <= i < |extents| && !Representable(extents[i], s) ensures p / bs < extents[i].logicalBlock {
        assert UnreachedAt(extents[i], bs, |data|);
        BlockIsBefore(p, bs, extents[i].logicalBlock);
      }
      EffectiveLookup(extents, s, p / bs);
      assert FollowsAt(img, po, bs, AllEffective(extents, s), p, data[p]);
    }
  }

  lemma MultipleOf(block: nat, bs: nat)
    requires bs > 0
    ensures 0 <= block * bs && (block * bs) / bs == block && (block * bs) % bs == 0
  {}

  lemma ReachedIsRepresentableIfFollows(img: Image, po: nat, s: U64, bs: nat, extents: seq<Ext4Extent>, data: seq<Byte>)
    requires 0 < s < 0x80_0000 && bs == 512 * s && AllOnDisk(extents) && NonOverlapping(extents)
    requires FollowsBlockMap(img, po, bs, extents, data)
    ensures ReachedRepresentable(extents, s, bs, |data|)
  {
    forall i | 0 <= i < |extents| && !Representable(extents[i], s) ensures UnreachedAt(extents[i], bs, |data|) {
      var p := extents[i].logicalBlock * bs;
      MultipleOf(extents[i].logicalBlock, bs);
      UnrepresentableIsFar(extents[i], s);
      LookupFinds(extents, i);
      if p < |data| {
        FollowsHere(img, po, bs, extents, data, p);
      }
    }
  }

  lemma FollowsHere(img: Image, po: nat, bs: nat, extents: seq<Ext4Extent>, data: seq<Byte>, p: nat)
    requires bs > 0 && FollowsBlockMap(img, po, bs, extents, data) && p < |data|
    ensures FollowsAt(img, po, bs, extents, p, data[p])
  {}

  // ----- main results -----

  /** Block-map semantics, for every block size: for sorted, non-overlapping extents, every recovered byte p is the
      image byte of the block mapped at p, or zero where p lies in a hole or an unwritten extent, if and only if every
      extent the data reaches has a 64-bit sector range. Recovery never succeeds beyond the end of the last extent. */
  lemma RecoveredBytesFollowTheBlockMap(e: Engine, img: Image, extents: seq<Ext4Extent>, s: U64, bs: U64, n: U64,
                                        entry: Entry, data: seq<Byte>)
    requires 0 < s < 0x80_0000 && bs == 512 * s && e.bytesPerSector == 512
    requires AllOnDisk(extents) && NonOverlapping(extents)
    requires ExtentEntry(entry, extents, s, n) && e.Outcome(img, entry) == Ok(Recovered(data))
    ensures n > 0 ==> HasSize(data, n, EndOf(extents, 0) * bs) && |data| <= EndOf(extents, 0) * bs
    ensures n == 0 ==> data == []
    ensures FollowsBlockMap(img, e.partitionOffset, bs, extents, data) <==> ReachedRepresentable(extents, s, bs, |data|)
  {
    if n > 0 {
      var effective := AllEffective(extents, s);
      EffectiveEntry(entry, extents, s, n);
      EffectiveIsRepresentable(extents, s);
      EffectiveEnd(extents, s, 0);
      RepresentableFollows(e, img, effective, s, bs, n, entry, data);
      if ReachedRepresentable(extents, s, bs, |data|) {
        FollowsIfReachedRepresentable(img, e.partitionOffset, s, bs, extents, data);
      }
    } else {
      forall i | 0 <= i < |extents| ensures UnreachedAt(extents[i], bs, 0) {
        MulNonNegative(extents[i].logicalBlock, bs);
      }
    }
    if FollowsBlockMap(img, e.partitionOffset, bs, extents, data) {
      ReachedIsRepresentableIfFollows(img, e.partitionOffset, s, bs, extents, data);
    }
  }

  /** The condition is real: with blocks of 1 GiB an extent far out on the disk is recovered as zeros. */
  lemma FarExtentBecomesZeros(img: Image, entry: Entry)
    requires entry.realSize == Some(1) && entry.regions == []
    requires entry.layout == LayoutOf(None, [Ext4Extent(0, 0x8000_0000_0000, 1, true)], 0x4000_0000, 0x20_0000)
    ensures var extents := [Ext4Extent(0, 0x8000_0000_0000, 1, true)];
      && AllOnDisk(extents) && NonOverlapping(extents) && ExtentEntry(entry, extents, 0x20_0000, 1)
      && Engine(0, 512).Outcome(img, entry) == Ok(Recovered([0]))
      && !FollowsBlockMap(img, 0, 0x4000_0000, extents, [0])
  {
    var extents := [Ext4Extent(0, 0x8000_0000_0000, 1, true)];
    var e := Engine(0, 512);
    assert !Representable(extents[0], 0x20_0000);
    assert extents[1..] == [];
    assert RegionsOf(extents, 0x20_0000) == RegionsOf(extents[1..], 0x20_0000);
    var segment := ContentSegment(0, 1, Sparse);
    assert entry.layout == ContentLayout(0x4000_0000, [segment]);
    var parts := e.SegmentContents(img, entry.layout);
    assert parts == [Ok(Zeros(0x4000_0000))];
    assert parts[1..] == [];
    GatherMeaning(parts, Some(1));
    var zero: seq<Byte> := [0];
    assert ReadablePrefix(parts) == Zeros(0x4000_0000);
    assert Zeros(0x4000_0000)[..1] == zero;
    assert !UnreachedAt(extents[0], 0x4000_0000, 1);
    if FollowsBlockMap(img, 0, 0x4000_0000, extents, zero) {
      ReachedIsRepresentableIfFollows(img, 0, 0x20_0000, 0x4000_0000, extents, zero);
    }
  }

  lemma RepresentableDecides(e: Engine, img: Image, extents: seq<Ext4Extent>, s: U64, bs: U64, n: U64, entry: Entry)
    requires 0 < s < 0x80_0000 && bs == 512 * s && e.bytesPerSector == 512
    requires AllOnDisk(extents) && NonOverlapping(extents) && AllRepresentable(extents, s)
    requires 0 < n < U64_MAX && ExtentEntry(entry, extents, s, n) && entry.layout.segments != []
    requires AllOk(LayoutBlocks(img, e.partitionOffset, bs, extents))
    ensures e.Outcome(img, entry).Ok?
    ensures e.Outcome(img, entry).value.Recovered? <==> n <= EndOf(extents, 0) * bs
  {
    EndFits(extents);
    KnownSizeOutcome(e, img, entry, n);
    GatherMeaning(e.SegmentContents(img, entry.layout), Some(n));
    LayoutReadsBlocks(e, img, extents, s);
    BlocksAreTheMap(img, e.partitionOffset, bs, extents);
    BlocksFollowTheMap(img, e.partitionOffset, bs, extents, LayoutBlocks(img, e.partitionOffset, bs, extents));
  }

  lemma RepresentableOutcome(e: Engine, img: Image, extents: seq<Ext4Extent>, s: U64, bs: U64, n: U64, entry: Entry)
    requires 0 < s < 0x80_0000 && bs == 512 * s && e.bytesPerSector == 512
    requires AllOnDisk(extents) && NonOverlapping(extents) && AllRepresentable(extents, s)
    requires 0 < n < U64_MAX && ExtentEntry(entry, extents, s, n)
    requires AllOk(LayoutBlocks(img, e.partitionOffset, bs, extents))
    ensures e.Outcome(img, entry).Ok?
    ensures e.Outcome(img, entry).value.Recovered? <==> n <= EndOf(extents, 0) * bs
  {
    if entry.layout.segments == [] {
      EmptyLayoutFails(e, img, extents, s, n, entry);
    } else {
      RepresentableDecides(e, img, extents, s, bs, n, entry);
    }
  }

  /** When every block that is laid out lies in the image, recovery succeeds exactly if the extents reach the recorded
      size, and otherwise reports failure. */
  lemma ReadableExtentsDecideRecovery(e: Engine, img: Image, extents: seq<Ext4Extent>, s: U64, bs: U64, n: U64,
                                      entry: Entry)
    requires 0 < s < 0x80_0000 && bs == 512 * s && e.bytesPerSector == 512
    requires AllOnDisk(extents) && NonOverlapping(extents) && n != U64_MAX && ExtentEntry(entry, extents, s, n)
    requires AllOk(LayoutBlocks(img, e.partitionOffset, bs, AllEffective(extents, s)))
    ensures e.Outcome(img, entry).Ok?
    ensures e.Outcome(img, entry).value.Recovered? <==> n == 0 || n <= EndOf(extents, 0) * bs
  {
    if n > 0 {
      var effective := AllEffective(extents, s);
      EffectiveEntry(entry, extents, s, n);
      EffectiveIsRepresentable(extents, s);
      RepresentableOutcome(e, img, effective, s, bs, n, entry);
      EffectiveEnd(extents, s, 0);
    }
  }

  // ----- from the extent tree to recovered bytes -----

  /** The entry built for the inode with this extent tree. */
  ghost predicate InodeEntry(entry: Entry, reader: BlockReader, root: seq<Byte>, s: U64, n: U64)
    requires InodeExtents(reader, root).Ok? && NonOverlapping(InodeExtents(reader, root).value) && 512 * s < U64_LIMIT
  {
    ResolvedIsOnDisk(reader, root);
    ExtentEntry(entry, InodeExtents(reader, root).value, s, n)
  }

  /** On any image: if the extents resolved from an inode do not overlap, the bytes recovered for it follow the block
      map of these extents, up to 16 MiB blocks always and beyond exactly as far as sector ranges exist. */
  lemma InodesFollowTheirBlockMap(e: Engine, reader: BlockReader, root: seq<Byte>, s: U64, n: U64, entry: Entry,
                                  data: seq<Byte>)
    requires 0 < s < 0x80_0000 && reader.blockSize == 512 * s && e.bytesPerSector == 512
    requires InodeExtents(reader, root).Ok? && NonOverlapping(InodeExtents(reader, root).value)
    requires InodeEntry(entry, reader, root, s, n) && e.Outcome(reader.img, entry) == Ok(Recovered(data))
    ensures var extents := InodeExtents(reader, root).value;
      && (s <= 0x8000 ==> FollowsBlockMap(reader.img, e.partitionOffset, reader.blockSize, extents, data))
      && (FollowsBlockMap(reader.img, e.partitionOffset, reader.blockSize, extents, data)
          <==> ReachedRepresentable(extents, s, reader.blockSize, |data|))
  {
    var extents := InodeExtents(reader, root).value;
    ResolvedIsOnDisk(reader, root);
    if s <= 0x8000 {
      SmallBlocksAreRepresentable(extents, s);
    }
    RecoveredBytesFollowTheBlockMap(e, reader.img, extents, s, reader.blockSize, n, entry, data);
  }

  /** In particular, an encoded, key-ordered tree of disjoint extents that is no deeper than the walk goes is recovered
      by its own block map. */
  lemma TreesFollowTheirBlockMap(e: Engine, reader: BlockReader, root: seq<Byte>, tree: ExtentTree, s: U64, n: U64,
                                 entry: Entry, data: seq<Byte>)
    requires 0 < s < 0x80_0000 && reader.blockSize == 512 * s && e.bytesPerSector == 512
    requires Encodes(reader, root, tree) && NothingDeeper(tree, Min(tree.Depth(), 5))
    requires KeyOrdered(InOrder(tree))
    requires InodeExtents(reader, root).Ok? && NonOverlapping(InodeExtents(reader, root).value)
    requires InodeEntry(entry, reader, root, s, n) && e.Outcome(reader.img, entry) == Ok(Recovered(data))
    ensures NonOverlapping(InOrder(tree))
    ensures s <= 0x8000 ==> FollowsBlockMap(reader.img, e.partitionOffset, reader.blockSize, InOrder(tree), data)
    ensures FollowsBlockMap(reader.img, e.partitionOffset, reader.blockSize, InOrder(tree), data)
      <==> ReachedRepresentable(InOrder(tree), s, reader.blockSize, |data|)
  {
    ResolvesTheTree(reader, root, tree);
    InodesFollowTheirBlockMap(e, reader, root, s, n, entry, data);
  }
}
