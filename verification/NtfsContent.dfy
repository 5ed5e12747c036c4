/** NTFS content: the direct run reader, the layout built from the same runs, and their agreement. */
module NtfsContent {
  import opened Machine
  import opened Evidence
  import opened ForensicModel
  import opened RecoveryEngine
  import opened NtfsDataRun

  datatype DataAttribute = DataAttribute(
    nonResident: bool, realSize: U64, residentData: Option<seq<Byte>>, dataRuns: seq<DataRun>)

  /** Decodes a $DATA attribute. */
  function ParseDataAttribute(buffer: seq<Byte>): Result<DataAttribute> {
    if |buffer| < 16 || U32At(buffer, 0) != 0x80 || U32At(buffer, 4) > |buffer| then Err(InvalidFormat)
    else
      var length := U32At(buffer, 4);
      if buffer[8] == 0 then
        if length < 22 then Err(InvalidFormat)
        else
          var valueLength, valueOffset := U32At(buffer, 16), U16At(buffer, 20);
          if valueOffset < 22 || valueOffset + valueLength > length then Err(InvalidFormat)
          else Ok(DataAttribute(false, valueLength, Some(buffer[valueOffset..valueOffset + valueLength]), []))
      else if length < 64 || U16At(buffer, 32) >= length then Err(InvalidFormat)
      else
        var runs :- Decode(buffer[U16At(buffer, 32)..length], 0);
        Ok(DataAttribute(true, U64At(buffer, 48), None, runs))
  }

  /** The shape every decoded attribute has. */
  ghost predicate WellFormed(a: DataAttribute) {
    if a.nonResident
    then a.residentData == None && AllPositive(a.dataRuns)
    else a.residentData.Some? && |a.residentData.value| == a.realSize && a.dataRuns == []
  }

  ghost predicate AllPositive(runs: seq<DataRun>) {
    forall run <- runs :: run.clusterCount > 0 && (run.lcn.Some? ==> run.lcn.value >= 0)
  }

  lemma ParsedIsWellFormed(buffer: seq<Byte>)
    requires ParseDataAttribute(buffer).Ok?
    ensures WellFormed(ParseDataAttribute(buffer).value)
  {
    if buffer[8] != 0 {
      DecodedRunsAreSane(buffer[U16At(buffer, 32)..U32At(buffer, 4)], 0);
    }
  }

  // ----- the direct reader -----

  datatype DataRunReader = DataRunReader(partitionOffset: U64, bytesPerCluster: U64) {

    /** Computed without overflow checks in the source. */
    function LcnOffset(lcn: U64): Result<U64> {
      match CheckedMul(lcn, bytesPerCluster)
      case None => Err(Panic)
      case Some(relative) =>
        if partitionOffset + relative < U64_LIMIT then Ok(partitionOffset + relative) else Err(Panic)
    }

    function ReadRun(img: Image, run: DataRun): Result<seq<Byte>> {
      match CheckedMul(run.clusterCount, bytesPerCluster)
      case None => Err(InvalidFormat)
      case Some(size) =>
        match run.lcn
        case None => Ok(Zeros(size))
        case Some(lcn) =>
          if lcn < 0 then Err(InvalidFormat)
          else
            var offset :- LcnOffset(lcn);
            ReadAt(img, offset, size)
    }

    function RunContents(img: Image, runs: seq<DataRun>): (parts: seq<Result<seq<Byte>>>)
      ensures |parts| == |runs|
    {
      seq(|runs|, i requires 0 <= i < |runs| => ReadRun(img, runs[i]))
    }

    /** The first `realSize` bytes of the runs, or an error when the runs are too short. */
    function RunsContent(img: Image, runs: seq<DataRun>, realSize: U64): Result<seq<Byte>> {
      var content :- Gather(RunContents(img, runs), Some(realSize));
      if |content| < realSize then Err(TooShort) else Ok(content)
    }

    method ReadRuns(img: Image, runs: seq<DataRun>, realSize: U64) returns (r: Result<seq<Byte>>)
      ensures r == RunsContent(img, runs, realSize)
    {
      ghost var parts := RunContents(img, runs);
      var result: seq<Byte> := [];
      if realSize == 0 {
        return Ok(result);
      }
      var i := 0;
      assert parts[i..] == parts;
      PrependNothing(Gather(parts, Some(realSize)));
      while i < |runs|
        invariant i <= |runs| && |result| <= realSize
        invariant Gather(parts, Some(realSize)) == Prepend(result, Gather(parts[i..], Some(realSize - |result|)))
      {
        if |result| >= realSize {
          break;
        }
        var data := ReadRun(img, runs[i]);
        if data.Err? {
          return Err(data.error);
        }
        var remaining := realSize - |result|;
        var bytesToCopy := Min(remaining, |data.value|);
        var copied := data.value[..bytesToCopy];
        assert Clip(data.value, Some(remaining)) == copied;
        GatherStep(parts, i, result, Some(remaining));
        result := result + copied;
        i := i + 1;
      }
      assert result + [] == result;
      if |result| < realSize {
        return Err(TooShort);
      }
      r := Ok(result);
    }

    function AttributeContent(img: Image, a: DataAttribute): Result<seq<Byte>> {
      if a.nonResident then RunsContent(img, a.dataRuns, a.realSize)
      else Ok(if a.residentData.Some? then a.residentData.value else [])
    }

    method ReadAttribute(img: Image, a: DataAttribute) returns (r: Result<seq<Byte>>)
      ensures r == AttributeContent(img, a)
    {
      if !a.nonResident {
        return Ok(if a.residentData.Some? then a.residentData.value else []);
      }
      r := ReadRuns(img, a.dataRuns, a.realSize);
    }
  }

  // ----- the layout -----

  /** None for sparse runs, and also for a run whose cluster or sector range leaves 64 bits. */
  function RegionForRun(run: DataRun, sectorsPerCluster: U64): Option<PhysicalRegion> {
    if run.lcn.None? || run.lcn.value < 0 then None
    else
      var lcn: U64 := run.lcn.value;
      var clusterEnd := CheckedAdd(lcn, SaturatingSub(run.clusterCount, 1));
      var sectorStart := CheckedMul(lcn, sectorsPerCluster);
      var sectorCount := CheckedMul(run.clusterCount, sectorsPerCluster);
      if clusterEnd.None? || sectorStart.None? || sectorCount.None? then None
      else
        match CheckedAdd(sectorStart.value, SaturatingSub(sectorCount.value, 1))
        case None => None
        case Some(sectorEnd) => Some(PhysicalRegion.FromRanges(lcn, clusterEnd.value, sectorStart.value, sectorEnd))
  }

  function SegmentSource(run: DataRun, sectorsPerCluster: U64): ContentSource {
    match RegionForRun(run, sectorsPerCluster)
    case Some(region) => Physical(region)
    case None => Sparse
  }

  /** One segment per non-empty run at the running logical position; None when that position leaves 64 bits. */
  function RunSegments(runs: seq<DataRun>, sectorsPerCluster: U64, start: U64): Option<seq<ContentSegment>> {
    if runs == [] then Some([])
    else if runs[0].clusterCount == 0 then RunSegments(runs[1..], sectorsPerCluster, start)
    else
      var segment := ContentSegment(start, runs[0].clusterCount, SegmentSource(runs[0], sectorsPerCluster));
      match CheckedAdd(start, runs[0].clusterCount)
      case None => None
      case Some(next) => Cons(segment, RunSegments(runs[1..], sectorsPerCluster, next))
  }

  function Cons<T>(x: T, rest: Option<seq<T>>): Option<seq<T>> {
    if rest.Some? then Some([x] + rest.value) else None
  }

  function LayoutOf(residentData: Option<seq<Byte>>, runs: seq<DataRun>, sectorsPerCluster: U64): ContentLayout {
    if sectorsPerCluster == 0 then ContentLayout.Empty()
    else
      match CheckedMul(sectorsPerCluster, 512)
      case None => ContentLayout.Empty()
      case Some(bytesPerCluster) =>
        if residentData.Some?
        then ContentLayout(bytesPerCluster, [InlineSegment(residentData.value, bytesPerCluster)])
        else
          match RunSegments(runs, sectorsPerCluster, 0)
          case None => ContentLayout.Empty()
          case Some(segments) => ContentLayout(bytesPerCluster, segments)
  }

  method BuildContentLayout(residentData: Option<seq<Byte>>, runs: seq<DataRun>, sectorsPerCluster: U64)
    returns (layout: ContentLayout)
    ensures layout == LayoutOf(residentData, runs, sectorsPerCluster)
  {
    if sectorsPerCluster == 0 {
      return ContentLayout.Empty();
    }
    var bytesPerCluster := CheckedMul(sectorsPerCluster, 512);
    if bytesPerCluster.None? {
      return ContentLayout.Empty();
    }
    if residentData.Some? {
      return ContentLayout(bytesPerCluster.value, [InlineSegment(residentData.value, bytesPerCluster.value)]);
    }
    var segments: seq<ContentSegment> := [];
    var logicalClusterStart: U64 := 0;
    assert runs[0..] == runs;
    JoinedNothing(RunSegments(runs, sectorsPerCluster, 0));
    for i := 0 to |runs|
      invariant RunSegments(runs, sectorsPerCluster, 0)
             == Joined(segments, RunSegments(runs[i..], sectorsPerCluster, logicalClusterStart))
    {
      assert runs[i..][1..] == runs[i + 1..];
      if runs[i].clusterCount == 0 {
        continue;
      }
      var region := RegionForRun(runs[i], sectorsPerCluster);
      var segment := ContentSegment(logicalClusterStart, runs[i].clusterCount,
                                    if region.Some? then Physical(region.value) else Sparse);
      var next := CheckedAdd(logicalClusterStart, runs[i].clusterCount);
      if next.None? {
        return ContentLayout.Empty();
      }
      JoinedCons(segments, segment, RunSegments(runs[i + 1..], sectorsPerCluster, next.value));
      segments := segments + [segment];
      logicalClusterStart := next.value;
    }
    layout := ContentLayout(bytesPerCluster.value, segments);
  }

  ghost function Joined<T>(done: seq<T>, rest: Option<seq<T>>): Option<seq<T>> {
    if rest.Some? then Some(done + rest.value) else None
  }

  lemma JoinedNothing<T>(rest: Option<seq<T>>)
    ensures Joined([], rest) == rest
  {
    if rest.Some? {
      assert [] + rest.value == rest.value;
    }
  }

  lemma JoinedCons<T>(done: seq<T>, x: T, rest: Option<seq<T>>)
    ensures Joined(done, Cons(x, rest)) == Joined(done + [x], rest)
  {
    if rest.Some? {
      assert done + ([x] + rest.value) == done + [x] + rest.value;
    }
  }

  function RunRegions(runs: seq<DataRun>, sectorsPerCluster: U64): seq<PhysicalRegion> {
    if runs == [] then []
    else
      match RegionForRun(runs[0], sectorsPerCluster)
      case Some(region) => [region] + RunRegions(runs[1..], sectorsPerCluster)
      case None => RunRegions(runs[1..], sectorsPerCluster)
  }

  lemma NextRegion(runs: seq<DataRun>, i: nat, done: seq<PhysicalRegion>, sectorsPerCluster: U64)
    requires i < |runs|
    ensures var region := RegionForRun(runs[i], sectorsPerCluster);
      done + RunRegions(runs[i..], sectorsPerCluster)
      == (if region.Some? then done + [region.value] else done) + RunRegions(runs[i + 1..], sectorsPerCluster)
  {
    assert runs[i..][1..] == runs[i + 1..];
  }

  method BuildPhysicalLocation(runs: seq<DataRun>, sectorsPerCluster: U64) returns (regions: seq<PhysicalRegion>)
    ensures regions == if sectorsPerCluster == 0 then [] else RunRegions(runs, sectorsPerCluster)
  {
    regions := [];
    if sectorsPerCluster == 0 {
      return;
    }
    for i := 0 to |runs|
      invariant RunRegions(runs, sectorsPerCluster) == regions + RunRegions(runs[i..], sectorsPerCluster)
    {
      NextRegion(runs, i, regions, sectorsPerCluster);
      var region := RegionForRun(runs[i], sectorsPerCluster);
      if region.Some? {
        regions := regions + [region.value];
      }
    }
  }

  /** The regions reported beside the layout are exactly its physical segments, in order. */
  lemma {:induction false} RegionsAreThePhysicalSegments(runs: seq<DataRun>, sectorsPerCluster: U64, start: U64)
    requires AllPositive(runs) && RunSegments(runs, sectorsPerCluster, start).Some?
    ensures RunRegions(runs, sectorsPerCluster) == PhysicalSegments(RunSegments(runs, sectorsPerCluster, start).value)
  {
    if runs != [] {
      RegionsAreThePhysicalSegments(runs[1..], sectorsPerCluster, start + runs[0].clusterCount);
      var segments := RunSegments(runs, sectorsPerCluster, start).value;
      assert segments[1..] == RunSegments(runs[1..], sectorsPerCluster, start + runs[0].clusterCount).value;
    }
  }

  // ----- agreement of the two routes -----

  /** The segment carries the run. */
  ghost predicate Carries(segment: ContentSegment, run: DataRun, sectorsPerCluster: U64) {
    segment.clusterCount == run.clusterCount && segment.source == SegmentSource(run, sectorsPerCluster)
  }

  /** A run with a cluster number has a sector range within 64 bits. */
  predicate Representable(run: DataRun, sectorsPerCluster: U64) {
    run.lcn.Some? ==> RegionForRun(run, sectorsPerCluster).Some?
  }

  lemma Scale(a: nat, s: nat)
    ensures a * (s * 512) == (a * s) * 512
  {}

  lemma RepresentableReads(e: Engine, img: Image, run: DataRun, s: U64, segment: ContentSegment)
    requires 0 < s && s * 512 < U64_LIMIT && e.bytesPerSector == 512
    requires run.clusterCount > 0 && run.lcn.Some? && run.lcn.value >= 0 && Representable(run, s)
    requires Carries(segment, run, s)
    ensures SameContent(DataRunReader(e.partitionOffset, s * 512).ReadRun(img, run),
                        e.ReadContentSegment(img, s * 512, segment))
  {
    var lcn, count := run.lcn.value, run.clusterCount;
    Scale(lcn, s);
    Scale(count, s);
    var region := RegionForRun(run, s).value;
    assert count * s >= 1 by { MulMonotone(1, count, s); }
    assert region.SectorCount() == Some(count * s);
  }

  lemma UnrepresentableIsOutside(run: DataRun, s: U64)
    requires 0 < s && run.clusterCount > 0 && run.lcn.Some? && run.lcn.value >= 0 && !Representable(run, s)
    ensures run.lcn.value * (s * 512) + run.clusterCount * (s * 512) > U64_LIMIT
  {
    var lcn, count := run.lcn.value, run.clusterCount;
    assert lcn * s + count * s > U64_LIMIT - 1 by {
      MulMonotone(1, s, lcn + count);
      assert (lcn + count) * s == lcn * s + count * s;
      MulNonNegative(lcn, s);
      MulNonNegative(count, s);
    }
    Scale(lcn, s);
    Scale(count, s);
    assert lcn * s + count * s >= U64_LIMIT;
  }

  /** Run by run, on every image: the layout route reads what the direct route reads if and only if the run's sector
      range fits 64 bits or its byte size does not. Otherwise the layout invents zeros where the direct route fails. */
  lemma RunAgreement(e: Engine, img: Image, run: DataRun, s: U64, segment: ContentSegment)
    requires 0 < s && s * 512 < U64_LIMIT && e.bytesPerSector == 512
    requires run.clusterCount > 0 && (run.lcn.Some? ==> run.lcn.value >= 0)
    requires Carries(segment, run, s)
    ensures SameContent(DataRunReader(e.partitionOffset, s * 512).ReadRun(img, run),
                        e.ReadContentSegment(img, s * 512, segment))
       <==> Representable(run, s) || CheckedMul(run.clusterCount, s * 512).None?
    ensures !Representable(run, s) && e.ReadContentSegment(img, s * 512, segment).Ok? ==>
              DataRunReader(e.partitionOffset, s * 512).ReadRun(img, run).Err?
    ensures e.ReadContentSegment(img, s * 512, segment).Ok? ==>
              |e.ReadContentSegment(img, s * 512, segment).value| == run.clusterCount * (s * 512)
  {
    if run.lcn.Some? {
      if Representable(run, s) {
        RepresentableReads(e, img, run, s, segment);
      } else {
        UnrepresentableIsOutside(run, s);
        MulMonotone(1, run.clusterCount, s * 512);
      }
    }
  }

  /** The runs that a read of `size` bytes reaches are all representable. */
  predicate ReachedRepresentable(runs: seq<DataRun>, s: U64, size: nat) {
    ReachedAll(seq(|runs|, i requires 0 <= i < |runs| => Representable(runs[i], s)), RunSizes(runs, s * 512), size)
  }

  function RunSizes(runs: seq<DataRun>, bytesPerCluster: nat): (sizes: seq<nat>)
    ensures |sizes| == |runs|
  {
    seq(|runs|, i requires 0 <= i < |runs| => MulNonNegative(runs[i].clusterCount, bytesPerCluster);
                                              runs[i].clusterCount * bytesPerCluster)
  }

  /** Segment i carries run i. */
  lemma {:induction false} SegmentsMatchRuns(runs: seq<DataRun>, s: U64, start: U64)
    requires AllPositive(runs) && RunSegments(runs, s, start).Some?
    ensures var segments := RunSegments(runs, s, start).value;
      && |segments| == |runs|
      && forall i | 0 <= i < |runs| :: Carries(segments[i], runs[i], s)
  {
    if runs != [] {
      SegmentsMatchRuns(runs[1..], s, start + runs[0].clusterCount);
    }
  }

  lemma {:induction false} ReadsAreNeverTooShort(reader: DataRunReader, img: Image, runs: seq<DataRun>, size: nat)
    ensures Gather(reader.RunContents(img, runs), Some(size)) != Err(TooShort)
  {
    var parts := reader.RunContents(img, runs);
    if runs != [] && size != 0 && parts[0].Ok? {
      assert parts[1..] == reader.RunContents(img, runs[1..]);
      ReadsAreNeverTooShort(reader, img, runs[1..], size - |Clip(parts[0].value, Some(size))|);
    }
  }

  /** The clusters of all runs. */
  function TotalClusters(runs: seq<DataRun>): nat {
    if runs == [] then 0 else runs[0].clusterCount + TotalClusters(runs[1..])
  }

  /** The layout is dropped exactly when the cluster counts add up to 2^64 or more. */
  lemma {:induction false} LayoutIsKeptIff(runs: seq<DataRun>, s: U64, start: U64)
    ensures RunSegments(runs, s, start).Some? <==> start + TotalClusters(runs) < U64_LIMIT
  {
    if runs != [] && start + runs[0].clusterCount < U64_LIMIT {
      LayoutIsKeptIff(runs[1..], s, start + runs[0].clusterCount);
    }
  }

  /** Over whole run lists: the routes read the same exactly when every reached run is representable or the layout route
      fails as well. */
  lemma RoutesOverRuns(e: Engine, img: Image, runs: seq<DataRun>, s: U64, size: nat)
    requires 0 < s && s * 512 < U64_LIMIT && e.bytesPerSector == 512
    requires AllPositive(runs) && RunSegments(runs, s, 0).Some?
    ensures var direct := Gather(DataRunReader(e.partitionOffset, s * 512).RunContents(img, runs), Some(size));
            var layout := Gather(e.SegmentContents(img, ContentLayout(s * 512, RunSegments(runs, s, 0).value)),
              Some(size));
      && (SameContent(direct, layout) <==> ReachedRepresentable(runs, s, size) || layout.Err?)
      && (direct.Ok? ==> direct == layout)
  {
    var direct := DataRunReader(e.partitionOffset, s * 512).RunContents(img, runs);
    var segments := RunSegments(runs, s, 0).value;
    SegmentsMatchRuns(runs, s, 0);
    var layout := e.SegmentContents(img, ContentLayout(s * 512, segments));
    var good := seq(|runs|, i requires 0 <= i < |runs| => Representable(runs[i], s));
    var sizes := RunSizes(runs, s * 512);
    forall i | 0 <= i < |runs|
      ensures good[i] ==> SameContent(direct[i], layout[i])
      ensures !good[i] && layout[i].Ok? ==> direct[i].Err?
      ensures layout[i].Ok? ==> |layout[i].value| == sizes[i]
      ensures direct[i].Ok? ==> direct[i] == layout[i]
    {
      RunAgreement(e, img, runs[i], s, segments[i]);
    }
    GatherAlike(direct, layout, good, sizes, size);
    GatherFailsToo(direct, layout, size);
  }

  /** What recovery should report for a direct read: the same bytes, failure for runs that are too short, an error
      for anything unreadable. */
  ghost predicate RoutesAgree(direct: Result<seq<Byte>>, outcome: Result<Recovery>) {
    match direct
    case Ok(data) => outcome == Ok(Recovered(data))
    case Err(TooShort) => outcome == Ok(Failed)
    case Err(_) => outcome.Err?
  }

  /** The entry that the NTFS investigation hands to recovery for a data attribute. */
  ghost predicate EntryFor(entry: Entry, a: DataAttribute, sectorsPerCluster: U64) {
    && entry.realSize == Some(a.realSize)
    && entry.layout == LayoutOf(a.residentData, a.dataRuns, sectorsPerCluster)
    && entry.regions == RunRegions(a.dataRuns, sectorsPerCluster)
  }

  lemma VerdictsAgree(direct: Result<seq<Byte>>, layout: Result<seq<Byte>>, size: nat)
    requires direct != Err(TooShort) && (direct.Ok? ==> direct == layout)
    ensures RoutesAgree(
      if direct.Ok? && |direct.value| < size then Err(TooShort) else direct, Sized(layout, Some(size)))
       <==> SameContent(direct, layout)
  {}

  lemma RunsEndToEnd(e: Engine, img: Image, a: DataAttribute, entry: Entry, s: U64)
    requires WellFormed(a) && a.nonResident && 0 < a.realSize < U64_MAX && EntryFor(entry, a, s)
    requires 0 < s && s * 512 < U64_LIMIT && e.bytesPerSector == 512
    requires a.dataRuns != [] && RunSegments(a.dataRuns, s, 0).Some?
    ensures RoutesAgree(DataRunReader(e.partitionOffset, s * 512).AttributeContent(img, a), e.Outcome(img, entry))
       <==> ReachedRepresentable(a.dataRuns, s, a.realSize) || e.Outcome(img, entry).Err?
  {
    var reader := DataRunReader(e.partitionOffset, s * 512);
    RoutesOverRuns(e, img, a.dataRuns, s, a.realSize);
    ReadsAreNeverTooShort(reader, img, a.dataRuns, a.realSize);
    SegmentsMatchRuns(a.dataRuns, s, 0);
    KnownSizeOutcome(e, img, entry, a.realSize);
    VerdictsAgree(Gather(reader.RunContents(img, a.dataRuns), Some(a.realSize)),
                  Gather(e.SegmentContents(img, entry.layout), Some(a.realSize)), a.realSize);
  }

  lemma ResidentEndToEnd(e: Engine, img: Image, a: DataAttribute, entry: Entry, s: U64)
    requires WellFormed(a) && !a.nonResident && a.realSize != U64_MAX && EntryFor(entry, a, s)
    requires 0 < s && s * 512 < U64_LIMIT
    ensures e.Outcome(img, entry) == Ok(Recovered(a.residentData.value))
  {
    var data := a.residentData.value;
    var parts := e.SegmentContents(img, entry.layout);
    assert parts == [Ok(data)];
    GatherMeaning(parts, Some(a.realSize));
    assert ReadablePrefix(parts) == data by {
      assert ReadablePrefix(parts[1..]) == [];
    }
  }

  /** End to end, on every image: recovering the entry built from a data attribute gives exactly what reading the
      attribute directly gives - resident, fragmented and sparse content, runs that are too short, runs outside the
      image - if and only if the runs the read reaches have 64-bit sector ranges or recovery itself ends in an error. */
  lemma EndToEnd(e: Engine, img: Image, a: DataAttribute, entry: Entry, s: U64)
    requires WellFormed(a) && a.realSize != U64_MAX && EntryFor(entry, a, s)
    requires 0 < s && s * 512 < U64_LIMIT && e.bytesPerSector == 512
    requires TotalClusters(a.dataRuns) < U64_LIMIT
    ensures RoutesAgree(DataRunReader(e.partitionOffset, s * 512).AttributeContent(img, a), e.Outcome(img, entry))
       <==> ReachedRepresentable(a.dataRuns, s, a.realSize) || e.Outcome(img, entry).Err?
  {
    LayoutIsKeptIff(a.dataRuns, s, 0);
    if !a.nonResident {
      ResidentEndToEnd(e, img, a, entry, s);
    } else if a.realSize > 0 && a.dataRuns != [] {
      RunsEndToEnd(e, img, a, entry, s);
    }
  }

  /** A recorded size of 2^64-1 is taken as unknown: recovery then returns all content, where the direct read insists on
      that many bytes. With representable runs the routes agree exactly when the content is that long, or when a run is
      unreadable before it is. */
  lemma MaximalSizeEndToEnd(e: Engine, img: Image, a: DataAttribute, entry: Entry, s: U64)
    requires WellFormed(a) && a.nonResident && a.realSize == U64_MAX && EntryFor(entry, a, s)
    requires 0 < s && s * 512 < U64_LIMIT && e.bytesPerSector == 512
    requires a.dataRuns != [] && TotalClusters(a.dataRuns) < U64_LIMIT
    requires forall i | 0 <= i < |a.dataRuns| :: Representable(a.dataRuns[i], s)
    ensures var reader := DataRunReader(e.partitionOffset, s * 512);
      var parts := reader.RunContents(img, a.dataRuns);
      RoutesAgree(reader.AttributeContent(img, a), e.Outcome(img, entry)) <==>
        if AllOk(parts) then |ReadablePrefix(parts)| == U64_MAX else |ReadablePrefix(parts)| < U64_MAX
  {
    LayoutIsKeptIff(a.dataRuns, s, 0);
    var reader := DataRunReader(e.partitionOffset, s * 512);
    var parts, layout := reader.RunContents(img, a.dataRuns), e.SegmentContents(img, entry.layout);
    SegmentsMatchRuns(a.dataRuns, s, 0);
    forall i | 0 <= i < |parts| ensures SameContent(parts[i], layout[i]) {
      RunAgreement(e, img, a.dataRuns[i], s, entry.layout.segments[i]);
    }
    SamePrefixes(parts, layout);
    GatherMeaning(parts, Some(U64_MAX));
    GatherMeaning(layout, None);
    ReadsAreNeverTooShort(reader, img, a.dataRuns, U64_MAX);
  }

  // ----- dropped layouts -----

  /** A physical run with a 64-bit sector range that lies in the image. */
  predicate Readable(reader: DataRunReader, img: Image, run: DataRun, s: U64) {
    run.lcn.Some? && Representable(run, s) && reader.ReadRun(img, run).Ok?
  }

  predicate ReachedReadable(reader: DataRunReader, img: Image, runs: seq<DataRun>, s: U64, size: nat) {
    ReachedAll(seq(|runs|, i requires 0 <= i < |runs| => Readable(reader, img, runs[i], s)), RunSizes(runs, s * 512),
      size)
  }

  /** The region of a readable run is the range the run reads. */
  lemma RunExtent(e: Engine, img: Image, run: DataRun, s: U64)
    requires 0 < s && s * 512 < U64_LIMIT && e.bytesPerSector == 512
    requires run.clusterCount > 0 && (run.lcn.Some? ==> run.lcn.value >= 0)
    requires Readable(DataRunReader(e.partitionOffset, s * 512), img, run, s)
    ensures 0 <= run.clusterCount * (s * 512)
    ensures var extent := e.RegionExtent(img, RegionForRun(run, s).value);
      extent.Ok? && extent.value.size == run.clusterCount * (s * 512)
      && ReadWhole(img, extent) == DataRunReader(e.partitionOffset, s * 512).ReadRun(img, run)
  {
    var lcn, count := run.lcn.value, run.clusterCount;
    Scale(lcn, s);
    Scale(count, s);
    var region := RegionForRun(run, s).value;
    assert count * s >= 1 by { MulMonotone(1, count, s); }
    assert region.SectorCount() == Some(count * s);
  }

  /** As far as readable runs reach, gathering the regions is gathering the runs. */
  lemma {:induction false} RegionsFollowRuns(e: Engine, img: Image, runs: seq<DataRun>, s: U64, size: nat)
    requires 0 < s && s * 512 < U64_LIMIT && e.bytesPerSector == 512 && AllPositive(runs)
    requires ReachedReadable(DataRunReader(e.partitionOffset, s * 512), img, runs, s, size)
    ensures var direct := Gather(DataRunReader(e.partitionOffset, s * 512).RunContents(img, runs), Some(size));
      direct.Ok? && GatherExtents(img, e.RegionExtents(img, RunRegions(runs, s)), size) == direct
    decreases |runs|
  {
    if runs != [] && size != 0 {
      var reader := DataRunReader(e.partitionOffset, s * 512);
      var parts, extents := reader.RunContents(img, runs), e.RegionExtents(img, RunRegions(runs, s));
      FirstRun(e, img, runs, s);
      var n := Min(extents[0].value.size, size);
      ReachedRest(reader, img, runs, s, size, size - n);
      RegionsFollowRuns(e, img, runs[1..], s, size - n);
      GatherFirst(img, parts, extents, size, n);
    }
  }

  lemma FirstRun(e: Engine, img: Image, runs: seq<DataRun>, s: U64)
    requires 0 < s && s * 512 < U64_LIMIT && e.bytesPerSector == 512 && AllPositive(runs) && runs != []
    requires Readable(DataRunReader(e.partitionOffset, s * 512), img, runs[0], s)
    ensures 0 <= runs[0].clusterCount * (s * 512)
    ensures var reader := DataRunReader(e.partitionOffset, s * 512);
            var parts, extents := reader.RunContents(img, runs), e.RegionExtents(img, RunRegions(runs, s));
      && parts[0].Ok? && parts[1..] == reader.RunContents(img, runs[1..])
      && extents != [] && extents[0].Ok? && extents[0].value.size == runs[0].clusterCount * (s * 512)
      && ReadWhole(img, extents[0]) == parts[0] && extents[1..] == e.RegionExtents(img, RunRegions(runs[1..], s))
  {
    RunExtent(e, img, runs[0], s);
    RestOfContents(DataRunReader(e.partitionOffset, s * 512), img, runs);
    RestOfRegions(e, img, runs, s, RegionForRun(runs[0], s).value);
  }

  lemma RestOfContents(reader: DataRunReader, img: Image, runs: seq<DataRun>)
    requires runs != []
    ensures reader.RunContents(img, runs)[0] == reader.ReadRun(img, runs[0])
    ensures reader.RunContents(img, runs)[1..] == reader.RunContents(img, runs[1..])
  {}

  lemma RestOfRegions(e: Engine, img: Image, runs: seq<DataRun>, s: U64, region: PhysicalRegion)
    requires runs != [] && RegionForRun(runs[0], s) == Some(region)
    ensures var extents := e.RegionExtents(img, RunRegions(runs, s));
      && extents != [] && extents[0] == e.RegionExtent(img, region)
      && extents[1..] == e.RegionExtents(img, RunRegions(runs[1..], s))
  {
    RegionsCons(runs, s, region);
    RestOfExtents(e, img, region, RunRegions(runs[1..], s));
  }

  lemma RegionsCons(runs: seq<DataRun>, s: U64, region: PhysicalRegion)
    requires runs != [] && RegionForRun(runs[0], s) == Some(region)
    ensures RunRegions(runs, s) == [region] + RunRegions(runs[1..], s)
  {}

  lemma RestOfExtents(e: Engine, img: Image, region: PhysicalRegion, rest: seq<PhysicalRegion>)
    ensures e.RegionExtents(img, [region] + rest)[0] == e.RegionExtent(img, region)
    ensures e.RegionExtents(img, [region] + rest)[1..] == e.RegionExtents(img, rest)
  {}

  /** A readable first extent contributes the same bytes to both ways of gathering. */
  lemma GatherFirst(img: Image, parts: seq<Result<seq<Byte>>>, extents: seq<Result<Extent>>, size: nat, n: nat)
    requires parts != [] && extents != [] && size > 0 && parts[0].Ok? && extents[0].Ok?
    requires parts[0] == ReadWhole(img, extents[0]) && n == Min(extents[0].value.size, size)
    ensures Gather(parts, Some(size)) == Prepend(parts[0].value[..n], Gather(parts[1..], Some(size - n)))
    ensures GatherExtents(img, extents, size)
         == Prepend(parts[0].value[..n], GatherExtents(img, extents[1..], size - n))
  {
    ReadAtClips(img, extents[0].value, n);
    assert Clip(parts[0].value, Some(size)) == parts[0].value[..n];
  }

  lemma ReachedRest(reader: DataRunReader, img: Image, runs: seq<DataRun>, s: U64, size: nat, remaining: nat)
    requires runs != [] && ReachedReadable(reader, img, runs, s, size)
    requires size != 0 && RunSizes(runs, s * 512)[0] <= size ==> remaining == size - RunSizes(runs, s * 512)[0]
    requires size != 0 && RunSizes(runs, s * 512)[0] > size ==> remaining == 0
    requires size == 0 ==> remaining == 0
    ensures ReachedReadable(reader, img, runs[1..], s, remaining)
  {
    var good := seq(|runs|, i requires 0 <= i < |runs| => Readable(reader, img, runs[i], s));
    assert good[1..] == seq(|runs[1..]|, i requires 0 <= i < |runs[1..]| => Readable(reader, img, runs[1..][i], s));
    assert RunSizes(runs, s * 512)[1..] == RunSizes(runs[1..], s * 512);
  }

  /** Where the layout is dropped, the regions still give what the direct read gives as long as every run it reaches is
      physical, representable and in the image. */
  lemma DroppedLayoutStillAgrees(e: Engine, img: Image, a: DataAttribute, entry: Entry, s: U64)
    requires WellFormed(a) && a.nonResident && a.realSize != U64_MAX && EntryFor(entry, a, s)
    requires 0 < s && s * 512 < U64_LIMIT && e.bytesPerSector == 512
    requires TotalClusters(a.dataRuns) >= U64_LIMIT
    requires ReachedReadable(DataRunReader(e.partitionOffset, s * 512), img, a.dataRuns, s, a.realSize)
    ensures RoutesAgree(DataRunReader(e.partitionOffset, s * 512).AttributeContent(img, a), e.Outcome(img, entry))
  {
    LayoutIsKeptIff(a.dataRuns, s, 0);
    assert a.dataRuns != [];
    RegionsFollowRuns(e, img, a.dataRuns, s, a.realSize);
  }

  /** The proviso is real: a one-cluster run far beyond any image is recovered as zeros, while reading it fails. */
  lemma UnrepresentableRunBecomesZeros(img: Image)
    ensures var run := DataRun(Some(0x7FFF_FFFF_FFFF_FFFF), 1);
            var a := DataAttribute(true, 5, None, [run]);
            var entry := Entry(5, "f", "/f", File, Status.Normal, None, Some(5), RunRegions([run], 8),
              LayoutOf(None, [run], 8));
      && DataRunReader(0, 4096).AttributeContent(img, a).Err?
      && Engine(0, 512).Outcome(img, entry) == Ok(Recovered([0, 0, 0, 0, 0]))
  {
    var run := DataRun(Some(0x7FFF_FFFF_FFFF_FFFF), 1);
    var layout := LayoutOf(None, [run], 8);
    assert RegionForRun(run, 8).None?;
    assert RunSegments([run][1..], 8, 1) == Some([]);
    var parts := Engine(0, 512).SegmentContents(img, layout);
    assert parts == [Ok(Zeros(4096))];
    GatherMeaning(parts, Some(5));
    assert ReadablePrefix(parts) == Zeros(4096) by {
      assert ReadablePrefix(parts[1..]) == [];
    }
    assert DataRunReader(0, 4096).RunContents(img, [run])[0].Err?;
    assert Zeros(4096)[..5] == [0, 0, 0, 0, 0];
  }

  /** Runs whose cluster counts add up to 2^64 or more lose their layout: two sparse runs read back as zeros directly
      but are reported as failed. */
  lemma OverlongRunsLoseTheirLayout(img: Image)
    ensures var runs := [DataRun(None, 1), DataRun(None, U64_MAX)];
            var a := DataAttribute(true, 1, None, runs);
            var entry := Entry(5, "f", "/f", File, Status.Normal, None, Some(1), RunRegions(runs, 8),
              LayoutOf(None, runs, 8));
      && DataRunReader(0, 4096).AttributeContent(img, a) == Ok([0])
      && Engine(0, 512).Outcome(img, entry) == Ok(Failed)
  {
    var runs := [DataRun(None, 1), DataRun(None, U64_MAX)];
    assert runs[1..] == [DataRun(None, U64_MAX)];
    assert runs[1..][1..] == [];
    assert CheckedAdd(1, U64_MAX).None?;
    assert RunSegments(runs[1..], 8, 1).None?;
    assert RunSegments(runs, 8, 0).None?;
    assert LayoutOf(None, runs, 8) == ContentLayout.Empty();
    assert RunRegions(runs[1..], 8) == [];
    var parts := DataRunReader(0, 4096).RunContents(img, runs);
    assert parts[0] == Ok(Zeros(4096));
    var zero: seq<Byte> := [0];
    assert Clip(Zeros(4096), Some(1)) == zero;
    assert zero + [] == zero;
    assert Gather(parts, Some(1)) == Ok(zero);
    assert RunRegions(runs, 8) == [];
  }
}
