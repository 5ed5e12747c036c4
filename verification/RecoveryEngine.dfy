/** Reassembly of an entry's content from its logical layout, or from its physical regions when it has none. */
module RecoveryEngine {
  import opened Machine
  import opened Evidence
  import opened ForensicModel

  /** `Failed` is the engine's report that the allocation is smaller than the recorded size. */
  datatype Recovery = Recovered(data: seq<Byte>) | Failed

  datatype Engine = Engine(partitionOffset: U64, bytesPerSector: U64) {

    function SectorOffset(sector: U64): Option<U64> {
      match CheckedMul(sector, bytesPerSector)
      case None => None
      case Some(relative) => CheckedAdd(partitionOffset, relative)
    }

    function RegionSize(region: PhysicalRegion): Option<U64> {
      match region.SectorCount()
      case None => None
      case Some(count) => CheckedMul(count, bytesPerSector)
    }

    /** An explicit byte offset has priority over the sector range. */
    function RegionOffset(region: PhysicalRegion): Option<U64> {
      if region.offset.Some? then region.offset
      else if region.sectorStart.Some? then SectorOffset(region.sectorStart.value)
      else None
    }

    function ReadRegion(img: Image, region: PhysicalRegion, bytesToRead: U64): Result<seq<Byte>> {
      var offset := RegionOffset(region);
      var regionSize := RegionSize(region);
      if offset.None? || regionSize.None? || bytesToRead > regionSize.value then Err(InvalidFormat)
      else if CheckedAdd(offset.value, bytesToRead).None? then Err(Io)
      else if offset.value + bytesToRead > |img| then Err(Io)
      else ReadAt(img, offset.value, bytesToRead)
    }

    function ReadContentSegment(img: Image, bytesPerCluster: U64, segment: ContentSegment): (r: Result<seq<Byte>>)
      ensures r.Ok? && !segment.source.Inline? ==> segment.ByteCount(bytesPerCluster) == Some(|r.value|)
    {
      if segment.source.Inline? then Ok(segment.source.data)
      else if bytesPerCluster == 0 then Err(InvalidFormat)
      else
        match segment.ByteCount(bytesPerCluster)
        case None => Err(InvalidFormat)
        case Some(size) =>
          match segment.source
          case Physical(region) => ReadRegion(img, region, size)
          case Sparse => Ok(Zeros(size))
    }

    // ----- what recovery means -----

    /** The content of each segment, in logical order. */
    function SegmentContents(img: Image, layout: ContentLayout): (parts: seq<Result<seq<Byte>>>)
      ensures |parts| == |layout.segments|
    {
      seq(|layout.segments|, i requires 0 <= i < |layout.segments| =>
        ReadContentSegment(img, layout.bytesPerCluster, layout.segments[i]))
    }

    /** An empty region, too, must start inside the image. */
    function RegionExtent(img: Image, region: PhysicalRegion): Result<Extent> {
      var offset, size := RegionOffset(region), RegionSize(region);
      if offset.None? || size.None? then Err(InvalidFormat)
      else if size == Some(0) && offset.value > |img| then Err(Io)
      else Ok(Extent(offset.value, size.value))
    }

    function RegionExtents(img: Image, regions: seq<PhysicalRegion>): (es: seq<Result<Extent>>)
      ensures |es| == |regions|
    {
      seq(|regions|, i requires 0 <= i < |regions| => RegionExtent(img, regions[i]))
    }

    function LayoutOutcome(img: Image, entry: Entry): Result<Recovery> {
      Sized(Gather(SegmentContents(img, entry.layout), KnownSize(entry.realSize)), KnownSize(entry.realSize))
    }

    function RegionsOutcome(img: Image, entry: Entry): Result<Recovery> {
      if entry.regions == [] then Ok(Failed)
      else
        var target := if entry.realSize.Some? then entry.realSize.value else U64_MAX;
        Sized(GatherExtents(img, RegionExtents(img, entry.regions), target), KnownSize(entry.realSize))
    }

    function Outcome(img: Image, entry: Entry): Result<Recovery> {
      if entry.realSize == Some(0) then Ok(Recovered([]))
      else if entry.layout.segments != [] then LayoutOutcome(img, entry)
      else RegionsOutcome(img, entry)
    }

    // ----- the engine -----

    method RecoverLogicalLayout(img: Image, entry: Entry) returns (r: Result<seq<Byte>>)
      ensures r == Gather(SegmentContents(img, entry.layout), KnownSize(entry.realSize))
    {
      var targetSize := if entry.realSize.Some? then entry.realSize.value else U64_MAX;
      ghost var limit := KnownSize(entry.realSize);
      ghost var parts := SegmentContents(img, entry.layout);
      var segments := entry.layout.segments;
      var recovered: seq<Byte> := [];
      var i := 0;
      assert parts[i..] == parts;
      PrependNothing(Gather(parts, limit));
      while i < |segments|
        invariant i <= |segments|
        invariant limit.Some? ==> |recovered| <= limit.value
        invariant Gather(parts, limit) == Prepend(recovered, Gather(parts[i..], Less(limit, |recovered|)))
      {
        if targetSize != U64_MAX && |recovered| >= targetSize {
          break;
        }
        var content := ReadContentSegment(img, entry.layout.bytesPerCluster, segments[i]);
        if content.Err? {
          return Err(content.error);
        }
        var data := content.value;
        if targetSize != U64_MAX {
          var remaining := targetSize - |recovered|;
          if |data| > remaining {
            data := data[..remaining];
          }
        }
        GatherStep(parts, i, recovered, Less(limit, |recovered|));
        assert data == Clip(content.value, Less(limit, |recovered|));
        recovered := recovered + data;
        i := i + 1;
      }
      assert recovered + [] == recovered;
      r := Ok(recovered);
    }

    method Recover(img: Image, entry: Entry) returns (r: Result<Recovery>)
      ensures r == Outcome(img, entry)
    {
      var targetSize := if entry.realSize.Some? then entry.realSize.value else U64_MAX;
      if targetSize == 0 {
        return Ok(Recovered([]));
      }
      if entry.layout.segments != [] {
        var content := RecoverLogicalLayout(img, entry);
        if content.Err? {
          return Err(content.error);
        }
        if targetSize != U64_MAX && |content.value| < targetSize {
          return Ok(Failed);
        }
        return Ok(Recovered(content.value));
      }
      if entry.regions == [] {
        return Ok(Failed);
      }
      var content := RecoverRegions(img, entry.regions, targetSize);
      if content.Err? {
        return Err(content.error);
      }
      if targetSize != U64_MAX && |content.value| < targetSize {
        return Ok(Failed);
      }
      r := Ok(Recovered(content.value));
    }

    /** The region-by-region route for entries without a logical layout. */
    method RecoverRegions(img: Image, regions: seq<PhysicalRegion>, targetSize: U64) returns (r: Result<seq<Byte>>)
      ensures r == GatherExtents(img, RegionExtents(img, regions), targetSize)
    {
      ghost var extents := RegionExtents(img, regions);
      var recovered: seq<Byte> := [];
      var i := 0;
      assert extents[i..] == extents;
      PrependNothing(GatherExtents(img, extents, targetSize));
      while i < |regions|
        invariant i <= |regions| && |recovered| <= targetSize
        invariant GatherExtents(img, extents, targetSize)
               == Prepend(recovered, GatherExtents(img, extents[i..], targetSize - |recovered|))
      {
        if |recovered| >= targetSize {
          break;
        }
        var availableSize := RegionSize(regions[i]);
        if availableSize.None? {
          return Err(InvalidFormat);
        }
        var remaining := targetSize - |recovered|;
        var bytesToRead := Min(availableSize.value, remaining);
        var data := ReadRegion(img, regions[i], bytesToRead);
        if data.Err? {
          return Err(data.error);
        }
        ExtentStep(img, extents, i, recovered, remaining, data.value);
        recovered := recovered + data.value;
        i := i + 1;
      }
      assert recovered + [] == recovered;
      r := Ok(recovered);
    }
  }

  /** The recorded size; 2^64-1 is the engine's code for "unknown". */
  function KnownSize(realSize: Option<U64>): Option<nat> {
    if realSize.Some? && realSize.value != U64_MAX then Some(realSize.value) else None
  }

  /** A known size that the content does not reach is a failure, not an error. */
  function Sized(content: Result<seq<Byte>>, size: Option<nat>): Result<Recovery> {
    if content.Err? then Err(content.error)
    else if size.Some? && |content.value| < size.value then Ok(Failed)
    else Ok(Recovered(content.value))
  }

  // ----- properties of the outcome -----

  lemma KnownSizeOutcome(e: Engine, img: Image, entry: Entry, n: nat)
    requires entry.layout.segments != [] && entry.realSize == Some(n) && 0 < n < U64_MAX
    ensures e.Outcome(img, entry) == Sized(Gather(e.SegmentContents(img, entry.layout), Some(n)), Some(n))
  {}

  /** With a known size n, recovery succeeds exactly when the readable segments before the first unreadable one
      hold n bytes, and then returns exactly the first n of them; it reports failure exactly when everything is
      readable and shorter than n. */
  lemma Exactness(e: Engine, img: Image, entry: Entry, n: nat)
    requires entry.layout.segments != [] && entry.realSize == Some(n) && n != U64_MAX
    ensures var parts := e.SegmentContents(img, entry.layout);
            var content := ReadablePrefix(parts);
      && (forall data :: e.Outcome(img, entry) == Ok(Recovered(data)) <==> n <= |content| && data == content[..n])
      && (e.Outcome(img, entry) == Ok(Failed) <==> AllOk(parts) && |content| < n)
      && (e.Outcome(img, entry).Err? <==> !AllOk(parts) && |content| < n)
  {
    var parts := e.SegmentContents(img, entry.layout);
    GatherMeaning(parts, Some(n));
    var content := ReadablePrefix(parts);
    assert n == |content| ==> content[..n] == content;
    assert content[..0] == [];
  }

  /** Without a recorded size, recovery returns everything, or an error if any segment is unreadable. */
  lemma UnknownSizeExactness(e: Engine, img: Image, entry: Entry)
    requires entry.layout.segments != [] && (entry.realSize == None || entry.realSize == Some(U64_MAX))
    ensures var parts := e.SegmentContents(img, entry.layout);
      if AllOk(parts) then e.Outcome(img, entry) == Ok(Recovered(ReadablePrefix(parts))) else e.Outcome(img, entry).Err?
  {
    GatherMeaning(e.SegmentContents(img, entry.layout), None);
  }

  /** Without a layout, the regions that are readable as a whole give their first n bytes, or failure when they are
      shorter; without regions there is nothing to recover, and nothing is needed for an empty object. */
  lemma RegionsExactness(e: Engine, img: Image, entry: Entry, n: nat)
    requires entry.layout.segments == [] && entry.realSize == Some(n) && n != U64_MAX
    ensures n == 0 ==> e.Outcome(img, entry) == Ok(Recovered([]))
    ensures n > 0 && entry.regions == [] ==> e.Outcome(img, entry) == Ok(Failed)
    ensures var parts := WholeParts(img, e.RegionExtents(img, entry.regions));
      n > 0 && AllOk(parts) ==>
        e.Outcome(img, entry)
          == Ok(if n <= |ReadablePrefix(parts)| then Recovered(ReadablePrefix(parts)[..n]) else Failed)
  {
    var extents := e.RegionExtents(img, entry.regions);
    var parts := WholeParts(img, extents);
    GatherMeaning(parts, Some(n));
    if n > 0 && AllOk(parts) {
      WholeReadsSuffice(img, extents, n);
      assert n == |ReadablePrefix(parts)| ==> ReadablePrefix(parts)[..n] == ReadablePrefix(parts);
    }
  }

  /** The layout describes exactly the regions, segment by segment. */
  ghost predicate AllPhysical(e: Engine, layout: ContentLayout, regions: seq<PhysicalRegion>) {
    && layout.bytesPerCluster > 0 && |layout.segments| == |regions|
    && forall i | 0 <= i < |regions| ::
         && layout.segments[i].source == Physical(regions[i])
         && layout.segments[i].ByteCount(layout.bytesPerCluster) == e.RegionSize(regions[i])
  }

  lemma PhysicalPartsReadAlike(e: Engine, img: Image, layout: ContentLayout, regions: seq<PhysicalRegion>)
    requires AllPhysical(e, layout, regions)
    ensures var parts, whole := e.SegmentContents(img, layout), WholeParts(img, e.RegionExtents(img, regions));
      |parts| == |whole| && forall i | 0 <= i < |parts| :: SameContent(parts[i], whole[i])
  {
    var parts, extents := e.SegmentContents(img, layout), e.RegionExtents(img, regions);
    forall i | 0 <= i < |parts| ensures SameContent(parts[i], ReadWhole(img, extents[i])) {
      assert layout.segments[i].source == Physical(regions[i]);
    }
  }

  /** Gathering does not notice which error an unreadable part reports. */
  lemma {:induction false} AlikePartsGatherAlike(parts: seq<Result<seq<Byte>>>, others: seq<Result<seq<Byte>>>,
      limit: nat)
    requires |parts| == |others|
    requires forall i | 0 <= i < |parts| :: SameContent(parts[i], others[i])
    ensures SameContent(Gather(parts, Some(limit)), Gather(others, Some(limit)))
  {
    if parts != [] && limit != 0 && parts[0].Ok? {
      AlikePartsGatherAlike(parts[1..], others[1..], limit - |Clip(parts[0].value, Some(limit))|);
    }
  }

  /** The same report, or an error both times. */
  ghost predicate SameOutcome(a: Result<Recovery>, b: Result<Recovery>) {
    if a.Ok? then b == a else b.Err?
  }

  /** On an all-physical layout the two reassembly loops agree exactly when no region is cut off; at a cut-off region
      the layout loop errs and the region loop does not. */
  lemma RegionsAgreeWithLayout(e: Engine, img: Image, entry: Entry, n: nat)
    requires entry.layout.segments != [] && entry.realSize == Some(n) && n != U64_MAX
    requires AllPhysical(e, entry.layout, entry.regions)
    ensures SameOutcome(e.Outcome(img, entry), e.Outcome(img, entry.(layout := ContentLayout.Empty())))
       <==> !CutOff(img, e.RegionExtents(img, entry.regions), n)
    ensures CutOff(img, e.RegionExtents(img, entry.regions), n) ==>
      e.Outcome(img, entry).Err? && e.Outcome(img, entry.(layout := ContentLayout.Empty())).Ok?
  {
    if n > 0 {
      var parts, extents := e.SegmentContents(img, entry.layout), e.RegionExtents(img, entry.regions);
      PhysicalPartsReadAlike(e, img, entry.layout, entry.regions);
      AlikePartsGatherAlike(parts, WholeParts(img, extents), n);
      PartialReadsAgree(img, extents, n);
      if CutOff(img, extents, n) {
        CutOffFails(img, extents, n);
      }
      SizedAlike(Gather(parts, Some(n)), GatherExtents(img, extents, n), n);
      GatherMeaning(parts, Some(n));
    }
  }

  lemma SizedAlike(a: Result<seq<Byte>>, b: Result<seq<Byte>>, n: nat)
    requires a.Ok? ==> b.Ok? && a == b
    ensures SameOutcome(Sized(a, Some(n)), Sized(b, Some(n))) <==> SameContent(a, b)
  {}

  /** An object of unknown size whose readable content stays below 2^64-1 bytes: the same condition. */
  lemma UnknownSizesAgree(e: Engine, img: Image, entry: Entry)
    requires entry.layout.segments != [] && KnownSize(entry.realSize).None?
    requires AllPhysical(e, entry.layout, entry.regions)
    requires |ReadablePrefix(e.SegmentContents(img, entry.layout))| < U64_MAX
    ensures SameOutcome(e.Outcome(img, entry), e.Outcome(img, entry.(layout := ContentLayout.Empty())))
       <==> !CutOff(img, e.RegionExtents(img, entry.regions), U64_MAX)
  {
    var parts, extents := e.SegmentContents(img, entry.layout), e.RegionExtents(img, entry.regions);
    PhysicalPartsReadAlike(e, img, entry.layout, entry.regions);
    AlikePartsGatherAlike(parts, WholeParts(img, extents), U64_MAX);
    PartialReadsAgree(img, extents, U64_MAX);
    GatherMeaning(parts, Some(U64_MAX));
    GatherMeaning(parts, None);
    if CutOff(img, extents, U64_MAX) {
      CutOffFails(img, extents, U64_MAX);
    }
  }

  /** A cut-off input: the last region is a sector of which the image holds only a part, and that part is enough. */
  lemma CutOffRegionsDiffer(img: Image, entry: Entry)
    requires |img| == 100 && entry.realSize == Some(100)
    requires entry.regions == [PhysicalRegion.FromRanges(0, 0, 0, 0)]
    requires entry.layout == ContentLayout(512, [ContentSegment(0, 1, Physical(entry.regions[0]))])
    ensures AllPhysical(Engine(0, 512), entry.layout, entry.regions)
    ensures Engine(0, 512).Outcome(img, entry).Err?
    ensures Engine(0, 512).Outcome(img, entry.(layout := ContentLayout.Empty())) == Ok(Recovered(img))
  {
    var e := Engine(0, 512);
    var extents := e.RegionExtents(img, entry.regions);
    assert extents == [Ok(Extent(0, 512))];
    assert e.SegmentContents(img, entry.layout)[0].Err?;
    assert GatherExtents(img, extents, 100) == Prepend(img[0..100], GatherExtents(img, [], 0));
    assert img[0..100] + [] == img;
  }

  /** A physical segment given by sectors reads exactly its bytes of the partition, whenever the range holds them and
      the image reaches that far. */
  lemma PhysicalSegmentBytes(e: Engine, img: Image, bytesPerCluster: U64, segment: ContentSegment, first: U64,
      last: U64)
    requires segment.source.Physical? && segment.source.region.offset == None && first <= last
    requires segment.source.region.sectorStart == Some(first) && segment.source.region.sectorEnd == Some(last)
    requires bytesPerCluster > 0
    ensures 0 <= first * e.bytesPerSector && 0 <= (last - first + 1) * e.bytesPerSector
    ensures 0 <= segment.clusterCount * bytesPerCluster
    ensures var at, size := e.partitionOffset + first * e.bytesPerSector, segment.clusterCount * bytesPerCluster;
      e.ReadContentSegment(img, bytesPerCluster, segment) ==
        if (last - first + 1) * e.bytesPerSector >= U64_LIMIT || last - first + 1 >= U64_LIMIT then Err(InvalidFormat)
        else if size > (last - first + 1) * e.bytesPerSector || at >= U64_LIMIT then Err(InvalidFormat)
        else if at + size <= |img| then Ok(img[at..at + size])
        else Err(Io)
  {
    MulNonNegative(first, e.bytesPerSector);
    MulNonNegative(last - first + 1, e.bytesPerSector);
    MulNonNegative(segment.clusterCount, bytesPerCluster);
    SectorRegionBytes(e, img, segment.source.region, first, last, segment.clusterCount * bytesPerCluster);
  }

  lemma SectorRegionBytes(e: Engine, img: Image, region: PhysicalRegion, first: U64, last: U64, size: nat)
    requires region.offset == None && first <= last
    requires region.sectorStart == Some(first) && region.sectorEnd == Some(last)
    ensures 0 <= first * e.bytesPerSector && 0 <= (last - first + 1) * e.bytesPerSector
    ensures last - first + 1 >= U64_LIMIT ==> e.RegionSize(region).None?
    ensures last - first + 1 < U64_LIMIT ==> e.RegionSize(region) == CheckedMul(last - first + 1, e.bytesPerSector)
    ensures e.RegionOffset(region) == e.SectorOffset(first)
    ensures var at := e.partitionOffset + first * e.bytesPerSector;
      e.RegionSize(region).Some? && size <= e.RegionSize(region).value && at < U64_LIMIT ==>
        e.ReadRegion(img, region, size) == if at + size <= |img| then Ok(img[at..at + size]) else Err(Io)
  {
    MulNonNegative(first, e.bytesPerSector);
    MulNonNegative(last - first + 1, e.bytesPerSector);
    var at := e.partitionOffset + first * e.bytesPerSector;
    if e.RegionSize(region).Some? && size <= e.RegionSize(region).value && at < U64_LIMIT {
      assert e.RegionOffset(region) == Some(at);
      if at + size <= |img| {
        ReadAtInside(img, at, size);
      }
    }
  }
}
