/** FAT32 and exFAT end to end: recovering the coalesced layout against reading the chain cluster by cluster. */
module FatRecovery {
  import opened Machine
  import opened Evidence
  import opened ForensicModel
  import opened RecoveryEngine
  import opened FatChain
  import opened ChainLayout
  import X = ExFatVolume
  import F = Fat32Volume

  /** Where clusters lie, in the 512-byte sectors of the forensic model. */
  datatype Geometry = Geometry(sectorsPerCluster: U64, firstDataSector: U64, partitionOffset: U64) {

    /** No sector number of a 32-bit cluster leaves 64 bits. */
    ghost predicate Valid() {
      0 < sectorsPerCluster <= 0x1000_0000 && firstDataSector < 0x100_0000_0000_0000
    }

    function ClusterSize(): nat {
      512 * sectorsPerCluster
    }

    function ClusterStart(cluster: int): int {
      partitionOffset + 512 * (firstDataSector + (cluster - 2) * sectorsPerCluster)
    }

    predicate InImage(img: Image, cluster: U32) {
      cluster >= 2 && ClusterStart(cluster) + ClusterSize() <= |img|
    }

    function ClusterPart(img: Image, cluster: U32): Result<seq<Byte>> {
      if InImage(img, cluster)
      then
        MulNonNegative(cluster - 2, sectorsPerCluster);
        Ok(img[ClusterStart(cluster)..ClusterStart(cluster) + ClusterSize()])
      else Err(Io)
    }

    function ClusterParts(img: Image, chain: seq<U32>): (parts: seq<Result<seq<Byte>>>)
      ensures |parts| == |chain|
    {
      seq(|chain|, i requires 0 <= i < |chain| => ClusterPart(img, chain[i]))
    }
  }

  // ----- one run -----

  /** A run of real clusters does not wrap. */
  lemma {:induction false} RealRunsDoNotWrap(first: U32, length: nat)
    requires length > 0 && forall i | 0 <= i < length :: Consecutive(first, length)[i] >= 2
    ensures first >= 2 && first + length - 1 < 0x1_0000_0000
    ensures Consecutive(first, length)[length - 1] == first + length - 1
    decreases length
  {
    assert Consecutive(first, length)[0] == first;
    if length > 1 {
      var next := Consecutive(Successor(first), length - 1);
      assert Consecutive(first, length)[1..] == next;
      forall i | 0 <= i < length - 1 ensures next[i] >= 2 {
        assert next[i] == Consecutive(first, length)[i + 1];
      }
      RealRunsDoNotWrap(Successor(first), length - 1);
    }
  }

  lemma StartOfNext(g: Geometry, cluster: int)
    ensures g.ClusterStart(cluster + 1) == g.ClusterStart(cluster) + g.ClusterSize()
  {}

  lemma StartIsNatural(g: Geometry, cluster: int)
    requires cluster >= 2
    ensures g.ClusterStart(cluster) >= 0
  {
    MulNonNegative(cluster - 2, g.sectorsPerCluster);
  }

  /** Consecutive clusters lie one behind the other. */
  lemma {:induction false} RunIsContiguous(img: Image, g: Geometry, first: U32, length: nat, from: nat)
    requires length > 0 ==> first >= 2 && first + length - 1 < 0x1_0000_0000 && from == g.ClusterStart(first)
    ensures g.ClusterParts(img, Consecutive(first, length)) == UnitParts(img, from, g.ClusterSize(), length)
    decreases length
  {
    if length > 0 {
      var parts := g.ClusterParts(img, Consecutive(first, length));
      StartOfNext(g, first);
      RunIsContiguous(img, g, if length == 1 then first else first + 1, length - 1, from + g.ClusterSize());
      assert parts[0] == ReadRange(img, from, g.ClusterSize());
      assert parts[1..] == g.ClusterParts(img, Consecutive(Successor(first), length - 1));
    }
  }

  /** The sector range of a run of real clusters always fits 64 bits. */
  lemma RegionExists(g: Geometry, first: U32, length: nat)
    requires g.Valid() && length > 0 && first >= 2 && first + length - 1 < 0x1_0000_0000
    ensures var region := RegionForRun(first, first + length - 1, g.sectorsPerCluster, g.firstDataSector);
      && region.Some? && region.value.offset == None
      && region.value.sectorStart == Some(g.firstDataSector + (first - 2) * g.sectorsPerCluster)
      && region.value.SectorCount() == Some(length * g.sectorsPerCluster)
  {
    var s := g.sectorsPerCluster;
    var last := first + length - 1;
    MulMonotone(first - 2, 0x1_0000_0000, s);
    MulMonotone(last - 2, 0x1_0000_0000, s);
    assert (last - 2) * s == (first - 2) * s + (length - 1) * s;
    assert length * s == (length - 1) * s + s;
    MulNonNegative(first - 2, s);
    MulNonNegative(length - 1, s);
  }

  lemma SectorsToBytes(n: nat, sectors: nat)
    ensures n * (512 * sectors) == 512 * (n * sectors) == n * sectors * 512 && 0 <= n * sectors
  {}

  /** The clusters of a run read one range. */
  lemma ClustersReadRange(img: Image, g: Geometry, run: ClusterRun, from: nat, bytes: nat)
    requires run.length > 0 && run.first >= 2 && run.first + run.length - 1 < 0x1_0000_0000
    requires from == g.ClusterStart(run.first) && bytes == run.length * g.ClusterSize()
    ensures SameContent(ReadRange(img, from, bytes),
      Gather(g.ClusterParts(img, Consecutive(run.first, run.length)), None))
  {
    RunIsContiguous(img, g, run.first, run.length, from);
    UnitsAreOneRange(img, from, g.ClusterSize(), run.length, bytes);
  }

  /** So does the segment of the run. */
  lemma SegmentReadsRange(e: Engine, img: Image, g: Geometry, run: ClusterRun, segment: ContentSegment, from: nat,
      bytes: nat)
    requires g.Valid() && e == Engine(g.partitionOffset, 512)
    requires run.length > 0 && run.first >= 2 && run.last == run.first + run.length - 1
    requires segment.clusterCount == run.length
      && segment.source == RunSource(run, g.sectorsPerCluster, g.firstDataSector)
    requires from == g.ClusterStart(run.first) && bytes == run.length * g.ClusterSize()
    ensures SameContent(ReadRange(img, from, bytes), e.ReadContentSegment(img, g.ClusterSize(), segment))
  {
    RegionExists(g, run.first, run.length);
    SectorsToBytes(run.length, g.sectorsPerCluster);
    SectorsToBytes(run.first - 2, g.sectorsPerCluster);
  }

  lemma RunReadsAlike(e: Engine, img: Image, g: Geometry, run: ClusterRun, segment: ContentSegment)
    requires g.Valid() && e == Engine(g.partitionOffset, 512)
    requires run.length > 0 && run.first >= 2 && run.last == run.first + run.length - 1
    requires segment.clusterCount == run.length
      && segment.source == RunSource(run, g.sectorsPerCluster, g.firstDataSector)
    ensures SameContent(Gather(g.ClusterParts(img, Consecutive(run.first, run.length)), None),
                        e.ReadContentSegment(img, g.ClusterSize(), segment))
    ensures PartIsRun(img, g, run, e.ReadContentSegment(img, g.ClusterSize(), segment))
  {
    StartIsNatural(g, run.first);
    MulNonNegative(run.length, g.ClusterSize());
    var from: nat, bytes: nat := g.ClusterStart(run.first), run.length * g.ClusterSize();
    ClustersReadRange(img, g, run, from, bytes);
    SegmentReadsRange(e, img, g, run, segment, from, bytes);
  }

  // ----- a whole chain -----

  ghost predicate RealClusters(chain: seq<U32>) {
    forall i | 0 <= i < |chain| :: chain[i] >= 2
  }

  lemma RunsOfRealChain(runs: seq<ClusterRun>)
    requires runs != [] && AllProper(runs) && RealClusters(Expand(runs))
    ensures runs[0].first >= 2 && runs[0].last == runs[0].first + runs[0].length - 1
    ensures RealClusters(Expand(runs[1..])) && AllProper(runs[1..])
  {
    var head := Consecutive(runs[0].first, runs[0].length);
    assert ProperRun(runs[0]);
    forall i | 0 <= i < |head| ensures head[i] >= 2 {
      assert head[i] == Expand(runs)[i];
    }
    RealRunsDoNotWrap(runs[0].first, runs[0].length);
    forall i | 0 <= i < |Expand(runs[1..])| ensures Expand(runs[1..])[i] >= 2 {
      assert Expand(runs[1..])[i] == Expand(runs)[|head| + i];
    }
  }

  /** The part reads what the clusters of the run read, and has their size. */
  ghost predicate PartIsRun(img: Image, g: Geometry, run: ClusterRun, part: Result<seq<Byte>>) {
    && SameContent(Gather(g.ClusterParts(img, Consecutive(run.first, run.length)), None), part)
    && (part.Ok? ==> |part.value| == run.length * g.ClusterSize())
  }

  /** The clusters of each run. */
  function RunGroups(img: Image, g: Geometry, runs: seq<ClusterRun>): (groups: seq<seq<Result<seq<Byte>>>>)
    ensures |groups| == |runs|
  {
    seq(|runs|, i requires 0 <= i < |runs| => g.ClusterParts(img, Consecutive(runs[i].first, runs[i].length)))
  }

  lemma {:induction false} GroupsAreTheChain(img: Image, g: Geometry, runs: seq<ClusterRun>)
    ensures Flatten(RunGroups(img, g, runs)) == g.ClusterParts(img, Expand(runs))
  {
    if runs != [] {
      GroupsAreTheChain(img, g, runs[1..]);
      assert RunGroups(img, g, runs)[1..] == RunGroups(img, g, runs[1..]);
    }
  }

  /** Part by part and cluster by cluster, a chain reads alike. */
  lemma ChainReadsAlike(img: Image, g: Geometry, runs: seq<ClusterRun>, parts: seq<Result<seq<Byte>>>)
    requires |parts| == |runs| && forall i | 0 <= i < |runs| :: PartIsRun(img, g, runs[i], parts[i])
    ensures SameContent(Gather(g.ClusterParts(img, Expand(runs)), None), Gather(parts, None))
  {
    var groups := RunGroups(img, g, runs);
    forall i | 0 <= i < |runs| ensures SameContent(Gather(groups[i], None), parts[i]) {
      assert PartIsRun(img, g, runs[i], parts[i]);
    }
    GroupsReadAlike(groups, parts);
    GroupsAreTheChain(img, g, runs);
  }

  lemma SplitProduct(a: int, b: int, c: int)
    ensures (a + b - 1) * c == a * c + (b - 1) * c
  {}

  /** An unreadable part leaves at least one cluster of the chain unread. */
  lemma {:induction false} UnreadableLeavesACluster(img: Image, g: Geometry, runs: seq<ClusterRun>,
      parts: seq<Result<seq<Byte>>>)
    requires |parts| == |runs| && forall i | 0 <= i < |runs| :: PartIsRun(img, g, runs[i], parts[i])
    requires AllProper(runs) && !AllOk(parts)
    ensures Total(runs) > 0 && |ReadablePrefix(parts)| <= (Total(runs) - 1) * g.ClusterSize()
  {
    assert ProperRun(runs[0]) && PartIsRun(img, g, runs[0], parts[0]);
    if parts[0].Ok? {
      assert AllOk(parts[1..]) ==> AllOk(parts);
      UnreadableLeavesACluster(img, g, runs[1..], parts[1..]);
      SplitProduct(runs[0].length, Total(runs[1..]), g.ClusterSize());
    } else {
      MulNonNegative(Total(runs) - 1, g.ClusterSize());
    }
  }

  /** Every segment of a layout built from real clusters reads as its run. */
  lemma SegmentsAreRuns(e: Engine, img: Image, g: Geometry, chain: seq<U32>)
    requires g.Valid() && e == Engine(g.partitionOffset, 512)
    requires chain != [] && RealClusters(chain) && |chain| < U64_LIMIT
    ensures var parts := e.SegmentContents(img,
      LayoutOf(chain, g.ClusterSize(), g.sectorsPerCluster, g.firstDataSector));
            var runs := Coalesce(chain);
      && AllProper(runs) && Expand(runs) == chain && |parts| == |runs| && runs != []
      && forall i | 0 <= i < |runs| :: PartIsRun(img, g, runs[i], parts[i])
  {
    var runs := Coalesce(chain);
    CoalesceIsExact(chain);
    TotalIsLength(runs);
    var layout := LayoutOf(chain, g.ClusterSize(), g.sectorsPerCluster, g.firstDataSector);
    forall i | 0 <= i < |runs|
      ensures PartIsRun(img, g, runs[i], e.ReadContentSegment(img, g.ClusterSize(), layout.segments[i]))
    {
      SegmentsArePlaced(runs, g.sectorsPerCluster, g.firstDataSector, 0, i);
      RealRun(runs, i);
      RunReadsAlike(e, img, g, runs[i], layout.segments[i]);
    }
  }

  lemma {:induction false} RealRun(runs: seq<ClusterRun>, i: nat)
    requires i < |runs| && AllProper(runs) && RealClusters(Expand(runs))
    ensures runs[i].length > 0 && runs[i].first >= 2 && runs[i].last == runs[i].first + runs[i].length - 1
  {
    assert ProperRun(runs[i]);
    RunsOfRealChain(runs);
    if i > 0 {
      RealRun(runs[1..], i - 1);
    }
  }

  /** The reader's cluster extents are the geometry's clusters. */
  ghost predicate ExtentsMatch(img: Image, g: Geometry, chain: seq<U32>, extents: seq<Result<Extent>>) {
    && |extents| == |chain|
    && forall i | 0 <= i < |chain| :: SameContent(g.ClusterPart(img, chain[i]), ReadWhole(img, extents[i]))
  }

  predicate AllInImage(img: Image, g: Geometry, chain: seq<U32>) {
    forall i | 0 <= i < |chain| :: g.InImage(img, chain[i])
  }

  /** What recovery reports when the clusters that can be reached lie in the image, given the direct read of `size`
      bytes. The largest size stands for an unknown one: recovery then returns all clusters, the direct read their first
      2^64-1 bytes. */
  ghost predicate ReadableOutcome(outcome: Result<Recovery>, direct: Result<seq<Byte>>, size: U64) {
    && direct.Ok? && |direct.value| <= size
    && if size == U64_MAX
       then outcome.Ok? && outcome.value.Recovered? && direct.value == Clip(outcome.value.data, Some(size))
       else outcome == Ok(if |direct.value| == size then Recovered(direct.value) else Failed)
  }

  /** End to end for a chain no longer than its file needs: if every cluster of the chain lies in the image, recovery
      returns what reading the chain returns, or reports failure when that is short of the recorded size; otherwise
      recovery ends in an error, and so does the direct read unless the image ends behind the last byte it needs. */
  lemma ChainEndToEnd(e: Engine, img: Image, g: Geometry, chain: seq<U32>, extents: seq<Result<Extent>>, n: U64,
                      entry: Entry)
    requires g.Valid() && e == Engine(g.partitionOffset, 512)
    requires chain != [] && RealClusters(chain) && |chain| < U64_LIMIT && ExtentsMatch(img, g, chain, extents)
    requires 0 < n && |chain| <= DivCeil(n, g.ClusterSize())
    requires entry.realSize == Some(n)
    requires entry.layout == LayoutOf(chain, g.ClusterSize(), g.sectorsPerCluster, g.firstDataSector)
    ensures var direct := GatherExtents(img, extents, n);
      if AllInImage(img, g, chain) then ReadableOutcome(e.Outcome(img, entry), direct, n)
      else e.Outcome(img, entry).Err? && (direct.Ok? <==> CutOff(img, extents, n))
  {
    var parts := e.SegmentContents(img, entry.layout);
    var clusters := g.ClusterParts(img, chain);
    CoalesceIsExact(chain);
    ClustersInImage(img, g, chain);
    SegmentsOfChain(e, img, g, chain, n);
    GatherMeaning(parts, KnownSize(Some(n)));
    if AllOk(clusters) {
      LimitedReads(clusters, parts, n);
      ExtentsRead(img, g, chain, extents, n);
      GatherMeaning(clusters, Some(n));
    } else {
      UnreadableChain(img, g, chain, extents, n);
    }
  }

  lemma UnreadableUnits(clusters: seq<Result<seq<Byte>>>, whole: seq<Result<seq<Byte>>>, unit: nat, n: nat)
    requires |clusters| == |whole| && forall i | 0 <= i < |whole| :: SameContent(clusters[i], whole[i])
    requires forall i | 0 <= i < |clusters| :: clusters[i].Ok? ==> |clusters[i].value| == unit
    requires unit > 0 && !AllOk(clusters) && |clusters| <= DivCeil(n, unit)
    ensures Gather(whole, Some(n)).Err?
  {
    SamePrefixes(clusters, whole);
    UnreadableUnit(clusters, unit);
    DivCeilCovers(n, unit, |clusters| - 1);
    GatherMeaning(whole, Some(n));
  }

  lemma ClustersAreUnits(img: Image, g: Geometry, chain: seq<U32>)
    ensures var clusters := g.ClusterParts(img, chain);
      forall i | 0 <= i < |clusters| :: clusters[i].Ok? ==> |clusters[i].value| == g.ClusterSize()
  {
    forall i | 0 <= i < |chain| && g.InImage(img, chain[i]) {
      MulNonNegative(chain[i] - 2, g.sectorsPerCluster);
    }
  }

  lemma ClustersMatch(img: Image, g: Geometry, chain: seq<U32>, extents: seq<Result<Extent>>)
    requires ExtentsMatch(img, g, chain, extents)
    ensures var clusters, whole := g.ClusterParts(img, chain), WholeParts(img, extents);
      forall i | 0 <= i < |chain| :: SameContent(clusters[i], whole[i])
  {
    forall i | 0 <= i < |chain| ensures SameContent(g.ClusterParts(img, chain)[i], WholeParts(img, extents)[i]) {
      assert SameContent(g.ClusterPart(img, chain[i]), ReadWhole(img, extents[i]));
    }
  }

  lemma UnreadableChain(img: Image, g: Geometry, chain: seq<U32>, extents: seq<Result<Extent>>, n: nat)
    requires g.Valid() && ExtentsMatch(img, g, chain, extents) && !AllOk(g.ClusterParts(img, chain))
    requires 0 < n && |chain| <= DivCeil(n, g.ClusterSize())
    ensures GatherExtents(img, extents, n).Ok? <==> CutOff(img, extents, n)
  {
    ClustersAreUnits(img, g, chain);
    ClustersMatch(img, g, chain, extents);
    UnreadableUnits(g.ClusterParts(img, chain), WholeParts(img, extents), g.ClusterSize(), n);
    PartialReadsAgree(img, extents, n);
  }

  lemma SegmentsOfChain(e: Engine, img: Image, g: Geometry, chain: seq<U32>, n: nat)
    requires g.Valid() && e == Engine(g.partitionOffset, 512)
    requires chain != [] && RealClusters(chain) && |chain| < U64_LIMIT && |chain| <= DivCeil(n, g.ClusterSize())
    ensures var parts := e.SegmentContents(img,
      LayoutOf(chain, g.ClusterSize(), g.sectorsPerCluster, g.firstDataSector));
            var clusters := g.ClusterParts(img, chain);
      && (AllOk(parts) <==> AllOk(clusters))
      && (AllOk(parts) ==> ReadablePrefix(parts) == ReadablePrefix(clusters))
      && (!AllOk(parts) ==> |ReadablePrefix(parts)| < n)
  {
    var parts := e.SegmentContents(img, LayoutOf(chain, g.ClusterSize(), g.sectorsPerCluster, g.firstDataSector));
    var runs := Coalesce(chain);
    SegmentsAreRuns(e, img, g, chain);
    ChainReadsAlike(img, g, runs, parts);
    GatherAll(parts);
    GatherAll(g.ClusterParts(img, chain));
    if !AllOk(parts) {
      UnreadableStopsShort(img, g, runs, parts, n);
    }
  }

  lemma UnreadableStopsShort(img: Image, g: Geometry, runs: seq<ClusterRun>, parts: seq<Result<seq<Byte>>>, n: nat)
    requires g.Valid() && |Expand(runs)| <= DivCeil(n, g.ClusterSize())
    requires |parts| == |runs| && forall i | 0 <= i < |runs| :: PartIsRun(img, g, runs[i], parts[i])
    requires AllProper(runs) && !AllOk(parts)
    ensures |ReadablePrefix(parts)| < n
  {
    TotalIsLength(runs);
    UnreadableLeavesACluster(img, g, runs, parts);
    DivCeilCovers(n, g.ClusterSize(), Total(runs) - 1);
  }

  lemma ClustersInImage(img: Image, g: Geometry, chain: seq<U32>)
    ensures AllOk(g.ClusterParts(img, chain)) <==> AllInImage(img, g, chain)
  {
    var parts := g.ClusterParts(img, chain);
    assert forall i | 0 <= i < |chain| :: parts[i].Ok? <==> g.InImage(img, chain[i]);
  }

  lemma LimitedReads(clusters: seq<Result<seq<Byte>>>, parts: seq<Result<seq<Byte>>>, n: nat)
    requires AllOk(clusters) && AllOk(parts) && ReadablePrefix(clusters) == ReadablePrefix(parts)
    ensures Gather(parts, Some(n)).Ok? && Gather(clusters, Some(n)) == Gather(parts, Some(n))
    ensures |Gather(parts, Some(n)).value| <= n
  {
    GatherMeaning(parts, Some(n));
    GatherMeaning(clusters, Some(n));
  }

  lemma ExtentsRead(img: Image, g: Geometry, chain: seq<U32>, extents: seq<Result<Extent>>, n: nat)
    requires ExtentsMatch(img, g, chain, extents) && AllOk(g.ClusterParts(img, chain))
    ensures GatherExtents(img, extents, n) == Gather(g.ClusterParts(img, chain), Some(n))
  {
    var clusters, whole := g.ClusterParts(img, chain), WholeParts(img, extents);
    forall i | 0 <= i < |chain| ensures whole[i] == clusters[i] {
      assert SameContent(g.ClusterPart(img, chain[i]), ReadWhole(img, extents[i]));
    }
    assert whole == clusters;
    GatherMeaning(clusters, Some(n));
    WholeReadsSuffice(img, extents, n);
  }

  lemma RealWalk(fat: Fat, rules: FatRules, start: U32, maxClusters: nat)
    requires start >= 2 && Walk(fat, rules, start, maxClusters).Ok?
    ensures var chain := Walk(fat, rules, start, maxClusters).value;
      chain != [] && RealClusters(chain) && |chain| <= Max(1, maxClusters)
  {
    var chain := Walk(fat, rules, start, maxClusters).value;
    WalkMeaning(fat, rules, start, maxClusters, chain);
    forall i | 0 <= i < |chain| ensures chain[i] >= 2 {
      if i > 0 {
        assert LinkAt(fat, rules, chain, i - 1);
      }
    }
  }

  lemma PositiveBudget(size: U64, clusterSize: nat)
    requires size > 0 && clusterSize > 0
    ensures DivCeil(size, clusterSize) >= 1 && DivCeil(0, clusterSize) == 0
  {
    DivCeilCovers(size, clusterSize, 0);
    DivCeilCovers(0, clusterSize, 0);
  }

  /** What recovery reports for a file, given the direct read, its recorded chain, whether that lies in the image and
      whether only the slack behind the file is missing from it. */
  ghost predicate FileOutcome(outcome: Result<Recovery>, direct: Result<seq<Byte>>, size: U64, chain: seq<U32>,
                              inImage: bool, cutOff: bool) {
    if size == 0 then direct == Ok([]) && outcome == Ok(Recovered([]))
    else if chain == [] then direct.Err? && outcome == Ok(Failed)
    else if inImage then ReadableOutcome(outcome, direct, size)
    else outcome.Err? && (direct.Ok? <==> cutOff)
  }

  /** The recorded chain of a file: nothing for an empty file or a chain that cannot be followed. */
  function RecordedChain(walked: Result<seq<U32>>, size: U64): seq<U32> {
    if size == 0 || walked.Err? then [] else walked.value
  }

  /** The entry built for a file with this chain. */
  ghost predicate ChainEntry(entry: Entry, g: Geometry, chain: seq<U32>, clusterSize: U64, size: U64) {
    && |chain| < U64_LIMIT && entry.realSize == Some(size)
    && entry.layout == LayoutOf(chain, clusterSize, g.sectorsPerCluster, g.firstDataSector)
    && entry.regions == RegionsOf(Coalesce(chain), g.sectorsPerCluster, g.firstDataSector)
  }

  lemma FileEndToEnd(img: Image, g: Geometry, walked: Result<seq<U32>>, extents: seq<Result<Extent>>, size: U64,
                     direct: Result<seq<Byte>>, entry: Entry)
    requires g.Valid() && g.ClusterSize() < U64_LIMIT
    requires ChainEntry(entry, g, RecordedChain(walked, size), g.ClusterSize(), size)
    requires walked.Ok? ==>
      && walked.value != [] && RealClusters(walked.value) && |walked.value| <= Max(1, DivCeil(size, g.ClusterSize()))
      && ExtentsMatch(img, g, walked.value, extents) && direct == GatherExtents(img, extents, size)
    requires walked.Err? ==> direct == Err(walked.error) && size > 0
    ensures FileOutcome(Engine(g.partitionOffset, 512).Outcome(img, entry), direct, size, RecordedChain(walked, size),
                        AllInImage(img, g, RecordedChain(walked, size)), CutOff(img, extents, size))
  {
    if size > 0 && walked.Ok? {
      PositiveBudget(size, g.ClusterSize());
      ChainEndToEnd(Engine(g.partitionOffset, 512), img, g, walked.value, extents, size, entry);
    }
  }

  /** An entry without a chain is reported as failed, unless it is empty. */
  lemma NoChainFails(e: Engine, img: Image, g: Geometry, clusterSize: U64, size: U64, entry: Entry)
    requires ChainEntry(entry, g, [], clusterSize, size)
    ensures e.Outcome(img, entry) == Ok(if size == 0 then Recovered([]) else Failed)
  {}

  // ----- exFAT -----

  function ExFatGeometry(reader: X.ExFatReader): Geometry
    requires reader.boot.Valid()
  {
    Geometry(reader.boot.Sectors512PerCluster(), reader.boot.FirstDataSector512(), reader.partitionOffset)
  }

  /** Rescaling to 512-byte sectors loses nothing: sector and byte positions of a cluster agree. */
  lemma ExFatGeometryIsExact(reader: X.ExFatReader, img: Image, cluster: U32)
    requires reader.boot.Valid()
    ensures ExFatGeometry(reader).Valid()
    ensures ExFatGeometry(reader).ClusterSize() == reader.boot.ClusterSize()
    ensures SameContent(ExFatGeometry(reader).ClusterPart(img, cluster), ReadWhole(img, reader.ClusterExtent(cluster)))
  {
    var g := ExFatGeometry(reader);
    var boot := reader.boot;
    X.ClusterSizeFits(boot);
    X.HeapOffsetFits(boot);
    HeapIsSectorAligned(boot);
    if cluster >= 2 {
      SectorsToBytes(cluster - 2, g.sectorsPerCluster);
      MulNonNegative(cluster - 2, g.sectorsPerCluster);
    }
  }

  lemma HeapIsSectorAligned(boot: X.ExFatBoot)
    requires boot.Valid()
    ensures boot.clusterHeapOffset * boot.bytesPerSector == 512 * boot.FirstDataSector512()
    ensures boot.FirstDataSector512() < 0x100_0000_0000_0000
  {
    X.HeapOffsetFits(boot);
    var k := boot.bytesPerSector / 512;
    assert boot.bytesPerSector == 512 * k;
    assert boot.clusterHeapOffset * (512 * k) == 512 * (boot.clusterHeapOffset * k);
  }

  lemma ExFatExtentsMatch(reader: X.ExFatReader, img: Image, chain: seq<U32>)
    requires reader.boot.Valid()
    ensures ExtentsMatch(img, ExFatGeometry(reader), chain, reader.ClusterExtents(chain))
  {
    forall i | 0 <= i < |chain|
      ensures SameContent(ExFatGeometry(reader).ClusterPart(img, chain[i]),
        ReadWhole(img, reader.ClusterExtents(chain)[i]))
    {
      ExFatGeometryIsExact(reader, img, chain[i]);
    }
  }

  /** Where the extents of the clusters that a read of `size` bytes walks are cut off by the end of the image. */
  ghost predicate ExFatCutOff(reader: X.ExFatReader, img: Image, cluster: U32, size: U64)
    requires reader.boot.Valid()
  {
    var chain := reader.FileChain(img, cluster, size);
    CutOff(img, reader.ClusterExtents(chain), size)
  }

  lemma ExFatFileEndToEnd(reader: X.ExFatReader, img: Image, cluster: U32, size: U64, entry: Entry)
    requires reader.boot.Valid() && cluster >= 2
    requires ChainEntry(entry, ExFatGeometry(reader), reader.FileChain(img, cluster, size), reader.boot.ClusterSize(),
      size)
    ensures var chain := reader.FileChain(img, cluster, size);
      FileOutcome(Engine(reader.partitionOffset, 512).Outcome(img, entry),
                  reader.ChainContent(img, cluster, size), size, chain,
                  AllInImage(img, ExFatGeometry(reader), chain), ExFatCutOff(reader, img, cluster, size))
  {
    var g := ExFatGeometry(reader);
    ExFatGeometryIsExact(reader, img, cluster);
    PositiveBudget(Max(1, size), g.ClusterSize());
    BudgetFits(size, g.ClusterSize());
    var budget := DivCeil(size, g.ClusterSize());
    var walked := reader.ChainOf(img, cluster, budget);
    if walked.Ok? {
      RealWalk(reader.Table(img), X.RULES, cluster, budget);
      ExFatExtentsMatch(reader, img, walked.value);
    }
    var extents := if walked.Ok? then reader.ClusterExtents(walked.value) else [];
    assert RecordedChain(walked, size) == reader.FileChain(img, cluster, size);
    FileEndToEnd(img, g, walked, extents, size, reader.ChainContent(img, cluster, size), entry);
  }

  /** What reading a chain that does not start at a data cluster gives. */
  lemma ExFatReservedStart(reader: X.ExFatReader, img: Image, cluster: U32, size: U64)
    requires reader.boot.Valid() && cluster < 2
    ensures cluster == 0 || size == 0 ==> reader.ChainContent(img, cluster, size) == Ok([])
    ensures cluster == 1 && size > 0 ==> reader.ChainContent(img, cluster, size).Err?
  {
    X.ClusterSizeFits(reader.boot);
    BudgetFits(size, reader.boot.ClusterSize());
    PositiveBudget(Max(1, size), reader.boot.ClusterSize());
    var budget := DivCeil(size, reader.boot.ClusterSize());
    if cluster == 1 && budget <= 1 {
      assert reader.ChainOf(img, 1, budget) == Ok([1]);
      assert reader.ClusterExtents([1])[0].Err?;
    }
  }

  /** What recovery of an exFAT file reports, given its recorded chain: exactly what following the chain and reading
      cluster by cluster gives. A chain that cannot be followed is reported as failed. A chain that leaves the image is
      an error, where the direct read still succeeds exactly if only slack is missing. Start cluster 0 reads as nothing
      but recovers as failed. */
  ghost predicate ExFatOutcome(reader: X.ExFatReader, img: Image, cluster: U32, size: U64, chain: seq<U32>,
                               outcome: Result<Recovery>)
    requires reader.boot.Valid()
  {
    var direct := reader.ChainContent(img, cluster, size);
    if cluster == 0 && size > 0 then direct == Ok([]) && outcome == Ok(Failed)
    else
      FileOutcome(outcome, direct, size, chain, AllInImage(img, ExFatGeometry(reader), chain),
                  ExFatCutOff(reader, img, cluster, size))
  }

  /** exFAT end to end, for every recorded size, start cluster, sector and cluster size, looping and fragmented chains
      included. */
  lemma ExFatEndToEnd(reader: X.ExFatReader, img: Image, cluster: U32, size: U64, entry: Entry)
    requires reader.boot.Valid()
    requires ChainEntry(entry, ExFatGeometry(reader), reader.FileChain(img, cluster, size), reader.boot.ClusterSize(),
      size)
    ensures ExFatOutcome(reader, img, cluster, size, reader.FileChain(img, cluster, size),
                         Engine(reader.partitionOffset, 512).Outcome(img, entry))
  {
    if cluster >= 2 {
      ExFatFileEndToEnd(reader, img, cluster, size, entry);
    } else {
      ExFatReservedStart(reader, img, cluster, size);
      NoChainFails(Engine(reader.partitionOffset, 512), img, ExFatGeometry(reader), reader.boot.ClusterSize(), size,
        entry);
    }
  }

  // ----- FAT32 -----

  function Fat32Geometry(disk: F.Fat32Disk): Geometry {
    Geometry(disk.boot.sectorsPerCluster, disk.boot.firstDataSector, disk.partitionOffset)
  }

  lemma Fat32GeometryIsExact(disk: F.Fat32Disk, cluster: U32)
    requires disk.boot.Valid() && disk.boot.bytesPerSector == 512
    ensures Fat32Geometry(disk).Valid()
    ensures Fat32Geometry(disk).ClusterSize() == disk.boot.ClusterSize()
    ensures SameContent(Fat32Geometry(disk).ClusterPart(disk.img, cluster),
      ReadWhole(disk.img, disk.ClusterExtent(cluster)))
  {
    if cluster >= 2 {
      MulNonNegative(cluster - 2, disk.boot.sectorsPerCluster);
    }
  }

  lemma Fat32ExtentsMatch(disk: F.Fat32Disk, chain: seq<U32>)
    requires disk.boot.Valid() && disk.boot.bytesPerSector == 512
    ensures ExtentsMatch(disk.img, Fat32Geometry(disk), chain, disk.ClusterExtents(chain))
  {
    forall i | 0 <= i < |chain|
      ensures SameContent(Fat32Geometry(disk).ClusterPart(disk.img, chain[i]),
        ReadWhole(disk.img, disk.ClusterExtents(chain)[i]))
    {
      Fat32GeometryIsExact(disk, chain[i]);
    }
  }

  ghost predicate Fat32CutOff(disk: F.Fat32Disk, cluster: U32, size: U64)
    requires disk.boot.Valid()
  {
    CutOff(disk.img, disk.ClusterExtents(disk.FileChain(cluster, size)), size)
  }

  lemma Fat32FileEndToEnd(disk: F.Fat32Disk, cluster: U32, size: U64, entry: Entry)
    requires disk.boot.Valid() && disk.boot.bytesPerSector == 512 && cluster >= 2
    requires ChainEntry(entry, Fat32Geometry(disk), disk.FileChain(cluster, size), disk.boot.ClusterSize(), size)
    ensures var chain := disk.FileChain(cluster, size);
      FileOutcome(Engine(disk.partitionOffset, 512).Outcome(disk.img, entry), disk.ChainContent(cluster, size), size,
                  chain, AllInImage(disk.img, Fat32Geometry(disk), chain), Fat32CutOff(disk, cluster, size))
  {
    var g := Fat32Geometry(disk);
    Fat32GeometryIsExact(disk, cluster);
    PositiveBudget(Max(1, size), g.ClusterSize());
    BudgetFits(size, g.ClusterSize());
    var budget := DivCeil(size, g.ClusterSize());
    var walked := disk.ChainOf(cluster, budget);
    if walked.Ok? {
      RealWalk(disk.Table(), F.RULES, cluster, budget);
      Fat32ExtentsMatch(disk, walked.value);
    }
    var extents := if walked.Ok? then disk.ClusterExtents(walked.value) else [];
    assert RecordedChain(walked, size) == disk.FileChain(cluster, size);
    FileEndToEnd(disk.img, g, walked, extents, size, disk.ChainContent(cluster, size), entry);
  }

  /** With any other sector size the model's sector numbers are not rescaled: a file with a chain is never recovered. */
  lemma Fat32NeedsSmallSectors(disk: F.Fat32Disk, cluster: U32, size: U64, entry: Entry)
    requires disk.boot.Valid() && disk.boot.bytesPerSector != 512
    requires ChainEntry(entry, Fat32Geometry(disk), disk.FileChain(cluster, size), disk.boot.ClusterSize(), size)
    requires disk.FileChain(cluster, size) != []
    ensures Engine(disk.partitionOffset, 512).Outcome(disk.img, entry).Err?
  {
    var chain, e := disk.FileChain(cluster, size), Engine(disk.partitionOffset, 512);
    BudgetFits(size, disk.boot.ClusterSize());
    RealWalk(disk.Table(), F.RULES, cluster, Max(DivCeil(size, disk.boot.ClusterSize()), 1));
    var runs := Coalesce(chain);
    CoalesceIsExact(chain);
    TotalIsLength(runs);
    RealRun(runs, 0);
    SegmentsArePlaced(runs, disk.boot.sectorsPerCluster, disk.boot.firstDataSector, 0, 0);
    OversizedReadFails(e, disk.img, Fat32Geometry(disk), runs[0], entry.layout.segments[0], disk.boot.bytesPerSector);
    UnreadableStartErrs(e, disk.img, entry);
  }

  lemma UnreadableStartErrs(e: Engine, img: Image, entry: Entry)
    requires entry.layout.segments != [] && entry.realSize != Some(0)
    requires e.ReadContentSegment(img, entry.layout.bytesPerCluster, entry.layout.segments[0]).Err?
    ensures e.Outcome(img, entry).Err?
  {
    assert e.SegmentContents(img, entry.layout)[0].Err?;
  }

  /** What recovery of a FAT32 file reports, given its recorded chain: with 512-byte sectors what reading the chain
      gives, with the same exceptions as exFAT; with any other sector size an error for a file that has a chain. A
      reserved start cluster cannot be read, and recovers as failed or as the empty file. */
  ghost predicate Fat32Outcome(disk: F.Fat32Disk, cluster: U32, size: U64, chain: seq<U32>, outcome: Result<Recovery>)
    requires disk.boot.Valid()
  {
    var direct := disk.ChainContent(cluster, size);
    if chain == []
    then
      && outcome == Ok(if size == 0 then Recovered([]) else Failed)
      && if size > 0 || cluster < 2 then direct.Err? else direct == Ok([])
    else if disk.boot.bytesPerSector != 512 then outcome.Err?
    else
      FileOutcome(outcome, direct, size, chain, AllInImage(disk.img, Fat32Geometry(disk), chain),
                  Fat32CutOff(disk, cluster, size))
  }

  /** FAT32 end to end, for every volume, recorded size and start cluster. */
  lemma Fat32EndToEnd(disk: F.Fat32Disk, cluster: U32, size: U64, entry: Entry)
    requires disk.boot.Valid()
    requires ChainEntry(entry, Fat32Geometry(disk), disk.FileChain(cluster, size), disk.boot.ClusterSize(), size)
    ensures Fat32Outcome(disk, cluster, size, disk.FileChain(cluster, size),
                         Engine(disk.partitionOffset, 512).Outcome(disk.img, entry))
  {
    var chain := disk.FileChain(cluster, size);
    if chain == [] {
      NoChainFails(Engine(disk.partitionOffset, 512), disk.img, Fat32Geometry(disk), disk.boot.ClusterSize(), size,
        entry);
      Fat32UnfollowableRead(disk, cluster, size);
    } else if disk.boot.bytesPerSector != 512 {
      Fat32NeedsSmallSectors(disk, cluster, size, entry);
    } else {
      Fat32FileEndToEnd(disk, cluster, size, entry);
    }
  }

  lemma Fat32UnfollowableRead(disk: F.Fat32Disk, cluster: U32, size: U64)
    requires disk.boot.Valid() && disk.FileChain(cluster, size) == []
    ensures var direct := disk.ChainContent(cluster, size);
      if size > 0 || cluster < 2 then direct.Err? else direct == Ok([])
  {
    BudgetFits(size, disk.boot.ClusterSize());
    PositiveBudget(Max(1, size), disk.boot.ClusterSize());
    if cluster >= 2 && disk.ChainOf(cluster, DivCeil(size, disk.boot.ClusterSize())).Ok? {
      RealWalk(disk.Table(), F.RULES, cluster, DivCeil(size, disk.boot.ClusterSize()));
    }
  }

  /** A segment whose clusters are larger than its sector range can hold is not read. */
  lemma OversizedReadFails(e: Engine, img: Image, g: Geometry, run: ClusterRun, segment: ContentSegment,
      bytesPerSector: U16)
    requires g.Valid() && e.bytesPerSector == 512 && bytesPerSector > 512 && g.sectorsPerCluster < 256
    requires run.length > 0 && run.first >= 2 && run.last == run.first + run.length - 1
    requires segment.clusterCount == run.length
      && segment.source == RunSource(run, g.sectorsPerCluster, g.firstDataSector)
    ensures 0 <= bytesPerSector * g.sectorsPerCluster < U64_LIMIT
    ensures e.ReadContentSegment(img, bytesPerSector * g.sectorsPerCluster, segment).Err?
  {
    MulNonNegative(bytesPerSector, g.sectorsPerCluster);
    MulMonotone(bytesPerSector, 0x1_0000, g.sectorsPerCluster);
    RegionExists(g, run.first, run.length);
    RegionTooSmall(run.length, g.sectorsPerCluster, bytesPerSector);
  }

  lemma RegionTooSmall(length: nat, sectors: nat, bytesPerSector: nat)
    requires length > 0 && sectors > 0 && bytesPerSector > 512
    ensures length * sectors * 512 < length * (bytesPerSector * sectors)
  {
    var n := length * sectors;
    assert n >= 1 by { MulMonotone(1, length, sectors); }
    assert length * (bytesPerSector * sectors) == n * bytesPerSector;
    assert n * bytesPerSector >= n * 513 by { MulMonotone(513, bytesPerSector, n); }
  }
}
