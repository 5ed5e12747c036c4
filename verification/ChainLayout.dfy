/** Coalescing a cluster chain into contiguous runs, shared by FAT32 and exFAT entries. */
module ChainLayout {
  import opened Machine
  import opened ForensicModel

  /** `length` consecutive clusters from `first` to `last`, cluster numbers wrapping at 2^32. */
  datatype ClusterRun = ClusterRun(first: U32, last: U32, length: nat)

  function Successor(cluster: U32): U32 {
    if cluster == 0xFFFF_FFFF then 0 else cluster + 1
  }

  /** None for a run that starts at a reserved cluster, wraps, or leaves 64 bits. */
  function RegionForRun(first: U32, last: U32, sectorsPerCluster: U64, firstDataSector: U64): Option<PhysicalRegion> {
    if first < 2 || last < first || sectorsPerCluster == 0 then None
    else
      match (CheckedMul(first - 2, sectorsPerCluster), CheckedMul(last - 2, sectorsPerCluster))
      case (Some(skipped), Some(toLast)) =>
        (match (CheckedAdd(firstDataSector, skipped), CheckedAdd(firstDataSector, toLast))
         case (Some(sectorStart), Some(lastStart)) =>
           (match CheckedAdd(lastStart, sectorsPerCluster - 1)
            case Some(sectorEnd) => Some(PhysicalRegion.FromRanges(first, last, sectorStart, sectorEnd))
            case None => None)
         case _ => None)
      case _ => None
  }

  // ----- run-length coding -----

  function CoalesceFrom(run: ClusterRun, rest: seq<U32>): seq<ClusterRun>
    decreases |rest|
  {
    if rest == [] then [run]
    else if rest[0] == Successor(run.last) then CoalesceFrom(ClusterRun(run.first, rest[0], run.length + 1), rest[1..])
    else [run] + CoalesceFrom(ClusterRun(rest[0], rest[0], 1), rest[1..])
  }

  function Coalesce(chain: seq<U32>): seq<ClusterRun> {
    if chain == [] then [] else CoalesceFrom(ClusterRun(chain[0], chain[0], 1), chain[1..])
  }

  function Consecutive(first: U32, length: nat): (s: seq<U32>)
    ensures |s| == length && (length > 0 ==> s[0] == first)
    decreases length
  {
    if length == 0 then [] else [first] + Consecutive(Successor(first), length - 1)
  }

  function Expand(runs: seq<ClusterRun>): seq<U32> {
    if runs == [] then [] else Consecutive(runs[0].first, runs[0].length) + Expand(runs[1..])
  }

  /** A run is non-empty and its last cluster is the last of the sequence it stands for. */
  ghost predicate ProperRun(run: ClusterRun) {
    run.length > 0 && run.last == Consecutive(run.first, run.length)[run.length - 1]
  }

  ghost predicate AllProper(runs: seq<ClusterRun>) {
    forall i | 0 <= i < |runs| :: ProperRun(runs[i])
  }

  /** No two adjacent runs could be one. */
  ghost predicate Maximal(runs: seq<ClusterRun>) {
    forall i | 0 <= i < |runs| - 1 :: SplitAt(runs, i)
  }

  ghost predicate SplitAt(runs: seq<ClusterRun>, i: nat)
    requires i + 1 < |runs|
  {
    runs[i + 1].first != Successor(runs[i].last)
  }

  lemma {:induction false} ConsecutiveGrows(first: U32, length: nat)
    requires length > 0
    ensures Consecutive(first, length + 1)
         == Consecutive(first, length) + [Successor(Consecutive(first, length)[length - 1])]
    decreases length
  {
    if length > 1 {
      ConsecutiveGrows(Successor(first), length - 1);
    }
  }

  lemma {:induction false} CoalesceFromIsExact(run: ClusterRun, rest: seq<U32>)
    requires ProperRun(run)
    ensures var runs := CoalesceFrom(run, rest);
      && runs != [] && runs[0].first == run.first
      && Expand(runs) == Consecutive(run.first, run.length) + rest
      && AllProper(runs) && Maximal(runs)
    decreases |rest|
  {
    var runs := CoalesceFrom(run, rest);
    if rest == [] {
      assert runs[1..] == [];
    } else if rest[0] == Successor(run.last) {
      ConsecutiveGrows(run.first, run.length);
      CoalesceFromIsExact(ClusterRun(run.first, rest[0], run.length + 1), rest[1..]);
      assert Consecutive(run.first, run.length) + [rest[0]] + rest[1..] == Consecutive(run.first, run.length) + rest;
    } else {
      var single := ClusterRun(rest[0], rest[0], 1);
      assert Consecutive(rest[0], 1) == [rest[0]];
      CoalesceFromIsExact(single, rest[1..]);
      var later := CoalesceFrom(single, rest[1..]);
      assert runs[1..] == later && [rest[0]] + rest[1..] == rest;
      forall i | 0 <= i < |runs| - 1 ensures SplitAt(runs, i) {
        if i > 0 {
          assert SplitAt(later, i - 1);
        }
      }
    }
  }

  /** Coalescing is a lossless, maximal run-length code of any chain. */
  lemma CoalesceIsExact(chain: seq<U32>)
    ensures Expand(Coalesce(chain)) == chain
    ensures AllProper(Coalesce(chain)) && Maximal(Coalesce(chain))
    ensures chain != [] ==> Coalesce(chain) != []
  {
    if chain != [] {
      var run := ClusterRun(chain[0], chain[0], 1);
      assert Consecutive(chain[0], 1) == [chain[0]];
      CoalesceFromIsExact(run, chain[1..]);
      assert [chain[0]] + chain[1..] == chain;
    }
  }

  /** The code is unique: the runs are determined by the chain. */
  lemma {:induction false} CodeIsUnique(runs: seq<ClusterRun>, others: seq<ClusterRun>)
    requires AllProper(runs)
    requires AllProper(others)
    requires Maximal(runs) && Maximal(others) && Expand(runs) == Expand(others)
    ensures runs == others
  {
    if runs == [] || others == [] {
      NonEmptyExpands(runs);
      NonEmptyExpands(others);
    } else {
      FirstRunFits(runs);
      FirstRunFits(others);
      if runs[0].length < others[0].length {
        CodesDiffer(runs, others);
      } else if others[0].length < runs[0].length {
        CodesDiffer(others, runs);
      } else {
        var a, b := Consecutive(runs[0].first, runs[0].length), Consecutive(others[0].first, others[0].length);
        assert a == Expand(runs)[..|a|] == b;
        assert a[0] == runs[0].first && b[0] == others[0].first;
        assert Expand(runs[1..]) == Expand(runs)[|a|..] == Expand(others[1..]);
        TailIsMaximal(runs);
        TailIsMaximal(others);
        CodeIsUnique(runs[1..], others[1..]);
      }
    }
  }

  lemma TailIsMaximal(runs: seq<ClusterRun>)
    requires runs != [] && Maximal(runs)
    ensures Maximal(runs[1..])
  {
    forall i | 0 <= i < |runs| - 2 ensures SplitAt(runs[1..], i) {
      assert SplitAt(runs, i + 1);
    }
  }

  lemma NonEmptyExpands(runs: seq<ClusterRun>)
    requires AllProper(runs)
    ensures Expand(runs) == [] <==> runs == []
  {}

  lemma FirstRunFits(runs: seq<ClusterRun>)
    requires runs != []
    ensures runs[0].length <= |Expand(runs)|
  {}

  /** Where a maximal code ends its first run, a code whose first run goes on holds a different cluster. */
  lemma CodesDiffer(runs: seq<ClusterRun>, others: seq<ClusterRun>)
    requires runs != [] && others != [] && runs[0].length < others[0].length
    requires AllProper(runs) && AllProper(others) && Maximal(runs)
    requires |Expand(runs)| > runs[0].length
    requires Expand(runs)[..runs[0].length] == Expand(others)[..runs[0].length]
    ensures Expand(runs)[runs[0].length] != Expand(others)[runs[0].length]
  {
    var n := runs[0].length;
    var a, b := Consecutive(runs[0].first, n), Consecutive(others[0].first, others[0].length);
    assert Expand(runs) == a + Expand(runs[1..]) && Expand(others) == b + Expand(others[1..]);
    ConsecutiveAt(others[0].first, others[0].length, n);
    assert b[n - 1] == Expand(others)[..n][n - 1] == Expand(runs)[..n][n - 1] == a[n - 1];
    assert runs[1..] != [];
    assert ProperRun(runs[1]);
    assert Expand(runs)[n] == Expand(runs[1..])[0] == runs[1].first;
    assert SplitAt(runs, 0);
  }

  lemma {:induction false} ConsecutiveAt(first: U32, length: nat, i: nat)
    requires 0 < i < length
    ensures Consecutive(first, length)[i] == Successor(Consecutive(first, length)[i - 1])
    decreases length
  {
    if i > 1 {
      ConsecutiveAt(Successor(first), length - 1, i - 1);
    }
  }

  // ----- segments and regions -----

  function RunSource(run: ClusterRun, sectorsPerCluster: U64, firstDataSector: U64): ContentSource {
    match RegionForRun(run.first, run.last, sectorsPerCluster, firstDataSector)
    case Some(region) => Physical(region)
    case None => Sparse
  }

  /** The number of clusters in the runs. */
  function Total(runs: seq<ClusterRun>): nat {
    if runs == [] then 0 else runs[0].length + Total(runs[1..])
  }

  lemma {:induction false} TotalIsLength(runs: seq<ClusterRun>)
    ensures Total(runs) == |Expand(runs)|
  {
    if runs != [] {
      TotalIsLength(runs[1..]);
    }
  }

  function SegmentsOf(runs: seq<ClusterRun>, sectorsPerCluster: U64, firstDataSector: U64,
      start: nat): (s: seq<ContentSegment>)
    requires start + Total(runs) < U64_LIMIT
    ensures |s| == |runs|
  {
    if runs == [] then []
    else
      [ContentSegment(start, runs[0].length, RunSource(runs[0], sectorsPerCluster, firstDataSector))]
      + SegmentsOf(runs[1..], sectorsPerCluster, firstDataSector, start + runs[0].length)
  }

  function LayoutOf(chain: seq<U32>, bytesPerCluster: U64, sectorsPerCluster: U64, firstDataSector: U64): ContentLayout
    requires |chain| < U64_LIMIT
  {
    if bytesPerCluster == 0 || chain == [] then ContentLayout.Empty()
    else
      CoalesceIsExact(chain);
      TotalIsLength(Coalesce(chain));
      ContentLayout(bytesPerCluster, SegmentsOf(Coalesce(chain), sectorsPerCluster, firstDataSector, 0))
  }

  /** Segment i carries run i and starts where the runs before it end. */
  lemma {:induction false} SegmentsArePlaced(runs: seq<ClusterRun>, spc: U64, fds: U64, start: nat, i: nat)
    requires start + Total(runs) < U64_LIMIT && i < |runs|
    ensures Total(runs[..i]) + runs[i].length <= Total(runs)
    ensures SegmentsOf(runs, spc, fds, start)[i]
         == ContentSegment(start + Total(runs[..i]), runs[i].length, RunSource(runs[i], spc, fds))
  {
    if i > 0 {
      SegmentsArePlaced(runs[1..], spc, fds, start + runs[0].length, i - 1);
      assert runs[..i][1..] == runs[1..][..i - 1];
    }
  }

  lemma {:induction false} SegmentsAppend(runs: seq<ClusterRun>, run: ClusterRun, spc: U64, fds: U64, start: nat)
    requires start + Total(runs) + run.length < U64_LIMIT
    ensures Total(runs + [run]) == Total(runs) + run.length
    ensures SegmentsOf(runs + [run], spc, fds, start)
         == SegmentsOf(runs, spc, fds, start)
           + [ContentSegment(start + Total(runs), run.length, RunSource(run, spc, fds))]
  {
    if runs == [] {
      assert [] + [run] == [run] && [run][1..] == [];
    } else {
      assert (runs + [run])[1..] == runs[1..] + [run];
      SegmentsAppend(runs[1..], run, spc, fds, start + runs[0].length);
    }
  }

  lemma FlushRun(done: seq<ClusterRun>, run: ClusterRun, later: seq<ClusterRun>, spc: U64, fds: U64)
    requires Total(done) + run.length < U64_LIMIT
    ensures done + ([run] + later) == (done + [run]) + later
    ensures Total(done + [run]) == Total(done) + run.length
    ensures SegmentsOf(done + [run], spc, fds, 0)
         == SegmentsOf(done, spc, fds, 0) + [ContentSegment(Total(done), run.length, RunSource(run, spc, fds))]
  {
    SegmentsAppend(done, run, spc, fds, 0);
  }

  lemma LastRun(chain: seq<U32>, done: seq<ClusterRun>, run: ClusterRun, bytesPerCluster: U64, spc: U64, fds: U64)
    requires |chain| < U64_LIMIT && bytesPerCluster != 0 && chain != []
    requires Coalesce(chain) == done + CoalesceFrom(run, []) && Total(done) + run.length == |chain|
    ensures LayoutOf(chain, bytesPerCluster, spc, fds) == ContentLayout(bytesPerCluster,
      SegmentsOf(done, spc, fds, 0) + [ContentSegment(Total(done), run.length, RunSource(run, spc, fds))])
  {
    SegmentsAppend(done, run, spc, fds, 0);
  }

  method BuildContentLayout(chain: seq<U32>, bytesPerCluster: U64, sectorsPerCluster: U64, firstDataSector: U64)
    returns (layout: ContentLayout)
    requires |chain| < U64_LIMIT
    ensures layout == LayoutOf(chain, bytesPerCluster, sectorsPerCluster, firstDataSector)
  {
    if bytesPerCluster == 0 || chain == [] {
      return ContentLayout.Empty();
    }
    var segments: seq<ContentSegment> := [];
    var logicalClusterStart := 0;
    var runStart, runLength, previous := chain[0], 1, chain[0];
    ghost var done: seq<ClusterRun> := [];
    var i := 1;
    while i < |chain|
      invariant 1 <= i <= |chain| && 1 <= runLength
      invariant Coalesce(chain) == done + CoalesceFrom(ClusterRun(runStart, previous, runLength), chain[i..])
      invariant logicalClusterStart == Total(done) && logicalClusterStart + runLength == i
      invariant segments == SegmentsOf(done, sectorsPerCluster, firstDataSector, 0)
    {
      var cluster := chain[i];
      assert chain[i..][1..] == chain[i + 1..];
      if cluster == Successor(previous) {
        runLength := runLength + 1;
      } else {
        var run := ClusterRun(runStart, previous, runLength);
        FlushRun(done, run, CoalesceFrom(ClusterRun(cluster, cluster, 1), chain[i + 1..]), sectorsPerCluster,
          firstDataSector);
        segments := segments + [ContentSegment(logicalClusterStart, runLength,
          RunSource(run, sectorsPerCluster, firstDataSector))];
        done := done + [run];
        logicalClusterStart := logicalClusterStart + runLength;
        runStart, runLength := cluster, 1;
      }
      previous := cluster;
      i := i + 1;
    }
    var run := ClusterRun(runStart, previous, runLength);
    LastRun(chain, done, run, bytesPerCluster, sectorsPerCluster, firstDataSector);
    segments := segments + [ContentSegment(logicalClusterStart, runLength,
      RunSource(run, sectorsPerCluster, firstDataSector))];
    layout := ContentLayout(bytesPerCluster, segments);
  }

  function RegionsOf(runs: seq<ClusterRun>, sectorsPerCluster: U64, firstDataSector: U64): seq<PhysicalRegion> {
    if runs == [] then []
    else
      (match RegionForRun(runs[0].first, runs[0].last, sectorsPerCluster, firstDataSector)
       case Some(region) => [region]
       case None => [])
      + RegionsOf(runs[1..], sectorsPerCluster, firstDataSector)
  }

  lemma RegionsCons(run: ClusterRun, rest: seq<ClusterRun>, spc: U64, fds: U64)
    ensures RegionsOf([run] + rest, spc, fds) == RegionsOf([run], spc, fds) + RegionsOf(rest, spc, fds)
  {
    assert ([run] + rest)[1..] == rest && [run][1..] == [];
  }

  lemma {:induction false} RegionsAppend(runs: seq<ClusterRun>, run: ClusterRun, spc: U64, fds: U64)
    ensures RegionsOf(runs + [run], spc, fds) == RegionsOf(runs, spc, fds) + RegionsOf([run], spc, fds)
  {
    if runs == [] {
      assert [] + [run] == [run];
    } else {
      var rest := runs[1..];
      assert runs == [runs[0]] + rest && runs + [run] == [runs[0]] + (rest + [run]);
      RegionsCons(runs[0], rest, spc, fds);
      RegionsCons(runs[0], rest + [run], spc, fds);
      RegionsAppend(rest, run, spc, fds);
    }
  }

  method BuildPhysicalLocation(chain: seq<U32>, sectorsPerCluster: U64, firstDataSector: U64)
    returns (regions: seq<PhysicalRegion>)
    ensures regions == RegionsOf(Coalesce(chain), sectorsPerCluster, firstDataSector)
  {
    regions := [];
    if sectorsPerCluster == 0 {
      NoSectorsNoRegions(Coalesce(chain), firstDataSector);
      return;
    }
    var runStart: Option<(U32, U32)> := None;
    ghost var done: seq<ClusterRun> := [];
    ghost var length := 0;
    for i := 0 to |chain|
      invariant runStart.None? <==> i == 0
      invariant i == 0 ==> done == []
      invariant i > 0 ==>
        Coalesce(chain) == done + CoalesceFrom(ClusterRun(runStart.value.0, runStart.value.1, length), chain[i..])
      invariant regions == RegionsOf(done, sectorsPerCluster, firstDataSector)
    {
      var cluster := chain[i];
      assert chain[i..][1..] == chain[i + 1..];
      match runStart
      case None =>
        runStart, length := Some((cluster, cluster)), 1;
        assert [] + Coalesce(chain) == Coalesce(chain);
      case Some((start, previous)) =>
        if cluster == Successor(previous) {
          runStart, length := Some((start, cluster)), length + 1;
        } else {
          var run := ClusterRun(start, previous, length);
          assert done + ([run] + CoalesceFrom(ClusterRun(cluster, cluster, 1), chain[i + 1..]))
              == done + [run] + CoalesceFrom(ClusterRun(cluster, cluster, 1), chain[i + 1..]);
          RegionsAppend(done, run, sectorsPerCluster, firstDataSector);
          var region := RegionForRun(start, previous, sectorsPerCluster, firstDataSector);
          if region.Some? {
            regions := regions + [region.value];
          }
          done := done + [run];
          runStart, length := Some((cluster, cluster)), 1;
        }
    }
    match runStart
    case None =>
    case Some((start, end)) =>
      RegionsAppend(done, ClusterRun(start, end, length), sectorsPerCluster, firstDataSector);
      var region := RegionForRun(start, end, sectorsPerCluster, firstDataSector);
      if region.Some? {
        regions := regions + [region.value];
      }
  }

  lemma {:induction false} NoSectorsNoRegions(runs: seq<ClusterRun>, fds: U64)
    ensures RegionsOf(runs, 0, fds) == []
  {
    if runs != [] {
      NoSectorsNoRegions(runs[1..], fds);
    }
  }

  /** The regions reported beside the layout are exactly its physical segments, in order. */
  lemma {:induction false} RegionsAreThePhysicalSegments(runs: seq<ClusterRun>, spc: U64, fds: U64, start: nat)
    requires start + Total(runs) < U64_LIMIT
    ensures RegionsOf(runs, spc, fds) == PhysicalSegments(SegmentsOf(runs, spc, fds, start))
  {
    if runs != [] {
      RegionsAreThePhysicalSegments(runs[1..], spc, fds, start + runs[0].length);
      PhysicalSegmentsCons(ContentSegment(start, runs[0].length, RunSource(runs[0], spc, fds)),
                           SegmentsOf(runs[1..], spc, fds, start + runs[0].length));
    }
  }
}
