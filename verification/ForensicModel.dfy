/** The filesystem-independent model that parsers produce and recovery consumes. */
module ForensicModel {
  import opened Machine

  datatype EntryKind = File | Directory | Symlink | Other

  datatype Status = Normal | System | Deleted | Carved | Inconsistent | Unknown

  /** A physical region; sectors are relative to the partition. */
  datatype PhysicalRegion = PhysicalRegion(
    clusterStart: Option<U64>, clusterEnd: Option<U64>,
    sectorStart: Option<U64>, sectorEnd: Option<U64>,
    offset: Option<U64>)
  {
    static function FromRanges(clusterStart: U64, clusterEnd: U64, sectorStart: U64, sectorEnd: U64): PhysicalRegion {
      PhysicalRegion(Some(clusterStart), Some(clusterEnd), Some(sectorStart), Some(sectorEnd), None)
    }

    /** None also for the one range, all 2^64 sectors, whose count is not a machine word. */
    function SectorCount(): Option<U64> {
      if sectorStart.Some? && sectorEnd.Some? && sectorStart.value <= sectorEnd.value
      then CheckedAdd(sectorEnd.value - sectorStart.value, 1)
      else None
    }
  }

  datatype ContentSource = Physical(region: PhysicalRegion) | Sparse | Inline(data: seq<Byte>)

  datatype ContentSegment = ContentSegment(logicalClusterStart: U64, clusterCount: U64, source: ContentSource) {
    /** The exact size of inline content; whole clusters otherwise. */
    function ByteCount(bytesPerCluster: U64): Option<U64> {
      if source.Inline?
      then (if |source.data| < U64_LIMIT then Some(|source.data|) else None)
      else CheckedMul(clusterCount, bytesPerCluster)
    }
  }

  datatype ContentLayout = ContentLayout(bytesPerCluster: U64, segments: seq<ContentSegment>) {
    static function Empty(): ContentLayout {
      ContentLayout(0, [])
    }
  }

  function InlineSegment(data: seq<Byte>, bytesPerCluster: U64): ContentSegment {
    var count := if data == [] || bytesPerCluster == 0 then 0 else DivCeil(|data|, bytesPerCluster);
    ContentSegment(0, if count < U64_LIMIT then count else U64_MAX, Inline(data))
  }

  /** The regions of the physical segments, in logical order. */
  function PhysicalSegments(segments: seq<ContentSegment>): seq<PhysicalRegion> {
    if segments == [] then []
    else (if segments[0].source.Physical? then [segments[0].source.region] else []) + PhysicalSegments(segments[1..])
  }

  lemma PhysicalSegmentsCons(head: ContentSegment, tail: seq<ContentSegment>)
    ensures PhysicalSegments([head] + tail)
         == (if head.source.Physical? then [head.source.region] else []) + PhysicalSegments(tail)
  {
    assert ([head] + tail)[1..] == tail;
  }

  datatype Entry = Entry(
    objectId: U64, name: string, path: string, kind: EntryKind, status: Status,
    parentId: Option<U64>, realSize: Option<U64>,
    regions: seq<PhysicalRegion>, layout: ContentLayout)
  {
    predicate IsDirectory() { kind == Directory }
  }
}
