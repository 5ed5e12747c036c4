/** NTFS from the bytes of an attribute to the bytes of a file. */
module NtfsFiles {
  import opened Machine
  import opened Evidence
  import opened ForensicModel
  import opened RecoveryEngine
  import opened NtfsDataRun
  import opened NtfsContent

  // ----- attributes as they are stored -----

  /** A resident $DATA attribute with this content. */
  ghost predicate IsResident(buffer: seq<Byte>, length: U32, offset: U16, data: seq<Byte>) {
    && length <= |buffer| && 22 <= offset && offset + |data| <= length
    && Stores(buffer, 0, 0x80, 4) && Stores(buffer, 4, length, 4) && buffer[8] == 0
    && Stores(buffer, 16, |data|, 4) && Stores(buffer, 20, offset, 2)
    && buffer[offset..offset + |data|] == data
  }

  /** A non-resident $DATA attribute with this size and runlist. */
  ghost predicate IsNonResident(buffer: seq<Byte>, length: U32, offset: U16, size: U64, runlist: seq<Byte>) {
    && 64 <= length <= |buffer| && offset < length
    && Stores(buffer, 0, 0x80, 4) && Stores(buffer, 4, length, 4) && buffer[8] != 0
    && Stores(buffer, 32, offset, 2) && Stores(buffer, 48, size, 8)
    && buffer[offset..length] == runlist
  }

  /** Decoding gives back what is stored. */
  lemma ResidentParses(buffer: seq<Byte>, length: U32, offset: U16, data: seq<Byte>)
    requires IsResident(buffer, length, offset, data)
    ensures ParseDataAttribute(buffer) == Ok(DataAttribute(false, |data|, Some(data), []))
  {
    StoredU32(buffer, 0, 0x80);
    StoredU32(buffer, 4, length);
    StoredU32(buffer, 16, |data|);
    StoredU16(buffer, 20, offset);
  }

  lemma NonResidentParses(buffer: seq<Byte>, length: U32, offset: U16, size: U64, runs: seq<DataRun>, ws: seq<Widths>,
                          tail: seq<Byte>)
    requires AllFit(runs, ws) && IsNonResident(buffer, length, offset, size, Encode(runs, ws) + tail)
    ensures ParseDataAttribute(buffer) == Ok(DataAttribute(true, size, None, runs))
  {
    StoredU32(buffer, 0, 0x80);
    StoredU32(buffer, 4, length);
    StoredU16(buffer, 32, offset);
    StoredU64(buffer, 48, size);
    RoundTrip(runs, ws, tail);
  }

  // ----- where the bytes of a file lie -----

  /** The cluster that holds cluster b of the content; None in a hole and behind the last run. */
  function ClusterAt(runs: seq<DataRun>, b: nat): Option<int> {
    if runs == [] then None
    else if b >= runs[0].clusterCount then ClusterAt(runs[1..], b - runs[0].clusterCount)
    else if runs[0].lcn.None? then None
    else Some(runs[0].lcn.value + b)
  }

  /** The value is the byte of the image at offset r of the cluster, or zero where there is none. */
  ghost predicate HoldsByte(img: Image, partitionOffset: nat, unit: nat, cluster: Option<int>, r: nat, value: Byte) {
    match cluster
    case None => value == 0
    case Some(c) =>
      var at := partitionOffset + c * unit + r;
      0 <= at < |img| && img[at] == value
  }

  /** Every byte of the data is what the runs say. */
  ghost predicate FollowsRuns(img: Image, partitionOffset: nat, unit: nat, runs: seq<DataRun>, data: seq<Byte>)
    requires unit > 0
  {
    forall p | 0 <= p < |data| :: FollowsAt(img, partitionOffset, unit, runs, p, data[p])
  }

  ghost predicate FollowsAt(img: Image, partitionOffset: nat, unit: nat, runs: seq<DataRun>, p: nat, value: Byte)
    requires unit > 0
  {
    HoldsByte(img, partitionOffset, unit, ClusterAt(runs, p / unit), p % unit, value)
  }

  lemma SplitPosition(p: nat, unit: nat)
    requires unit > 0
    ensures p == (p / unit) * unit + p % unit && 0 <= p / unit && 0 <= p % unit < unit
  {}

  lemma InFirst(p: nat, unit: nat, count: nat)
    requires unit > 0 && p < count * unit
    ensures p / unit < count
  {
    SplitPosition(p, unit);
    if count <= p / unit {
      MulMonotone(count, p / unit, unit);
    }
  }

  lemma BehindFirst(p: nat, unit: nat, count: nat)
    requires unit > 0 && p >= count * unit
    ensures p / unit >= count && p - count * unit >= 0
    ensures (p - count * unit) / unit == p / unit - count && (p - count * unit) % unit == p % unit
  {
    SplitPosition(p, unit);
    if p / unit < count {
      MulMonotone(p / unit + 1, count, unit);
    }
    assert p - count * unit == (p / unit - count) * unit + p % unit;
    QuotientIs(p - count * unit, unit, p / unit - count, p % unit);
  }

  lemma QuotientIs(p: nat, unit: nat, q: nat, r: nat)
    requires unit > 0 && r < unit && p == q * unit + r
    ensures p / unit == q && p % unit == r
  {
    SplitPosition(p, unit);
    if p / unit < q {
      MulMonotone(p / unit + 1, q, unit);
    } else if p / unit > q {
      MulMonotone(q + 1, p / unit, unit);
    }
  }

  lemma RunHoldsByte(reader: DataRunReader, img: Image, run: DataRun, p: nat)
    requires reader.bytesPerCluster > 0 && reader.ReadRun(img, run).Ok? && p < |reader.ReadRun(img, run).value|
    requires run.lcn.Some? ==> run.lcn.value >= 0
    ensures 0 <= run.clusterCount * reader.bytesPerCluster == |reader.ReadRun(img, run).value|
    ensures p / reader.bytesPerCluster < run.clusterCount
    ensures FollowsAt(img, reader.partitionOffset, reader.bytesPerCluster, [run], p, reader.ReadRun(img, run).value[p])
  {
    var unit := reader.bytesPerCluster;
    MulNonNegative(run.clusterCount, unit);
    InFirst(p, unit, run.clusterCount);
    SplitPosition(p, unit);
    if run.lcn.Some? {
      MulNonNegative(run.lcn.value, unit);
      Distribute(run.lcn.value, p / unit, unit);
      assert ClusterAt([run], p / unit) == Some(run.lcn.value + p / unit);
    }
  }

  lemma Distribute(a: int, b: int, c: int)
    ensures (a + b) * c == a * c + b * c
  {}

  /** The readable runs hold the bytes that the runs name. */
  lemma {:induction false} PrefixFollows(reader: DataRunReader, img: Image, runs: seq<DataRun>, p: nat)
    requires reader.bytesPerCluster > 0 && AllPositive(runs)
    requires p < |ReadablePrefix(reader.RunContents(img, runs))|
    ensures FollowsAt(img, reader.partitionOffset, reader.bytesPerCluster, runs, p,
                      ReadablePrefix(reader.RunContents(img, runs))[p])
    decreases |runs|
  {
    var parts, unit := reader.RunContents(img, runs), reader.bytesPerCluster;
    var first := parts[0].value;
    assert runs[0] in runs;
    assert parts[1..] == reader.RunContents(img, runs[1..]);
    MulNonNegative(runs[0].clusterCount, unit);
    if p < |first| {
      RunHoldsByte(reader, img, runs[0], p);
    } else {
      FirstSize(reader, img, runs[0]);
      BehindFirst(p, unit, runs[0].clusterCount);
      PrefixFollows(reader, img, runs[1..], p - |first|);
    }
  }

  lemma FirstSize(reader: DataRunReader, img: Image, run: DataRun)
    requires reader.ReadRun(img, run).Ok?
    ensures |reader.ReadRun(img, run).value| == run.clusterCount * reader.bytesPerCluster
  {
    MulNonNegative(run.clusterCount, reader.bytesPerCluster);
  }

  /** Reading the runs of an attribute directly gives as many bytes as recorded, each as the runs say: the byte of the
      image at its place in its cluster, or zero in a hole. */
  lemma DirectReadFollowsRuns(reader: DataRunReader, img: Image, a: DataAttribute)
    requires reader.bytesPerCluster > 0 && a.nonResident && AllPositive(a.dataRuns)
    ensures var direct := reader.AttributeContent(img, a);
      direct.Ok? ==>
        && |direct.value| == a.realSize
        && FollowsRuns(img, reader.partitionOffset, reader.bytesPerCluster, a.dataRuns, direct.value)
  {
    var parts := reader.RunContents(img, a.dataRuns);
    var direct := reader.AttributeContent(img, a);
    GatherMeaning(parts, Some(a.realSize));
    if direct.Ok? {
      forall p | 0 <= p < |direct.value|
        ensures FollowsAt(img, reader.partitionOffset, reader.bytesPerCluster, a.dataRuns, p, direct.value[p])
      {
        PrefixFollows(reader, img, a.dataRuns, p);
      }
    }
  }

  /** A run has a sector range exactly when the range ends within 2^64 sectors and has fewer of them. */
  lemma RepresentableIff(run: DataRun, s: U64)
    requires run.lcn.Some? && run.lcn.value >= 0 && run.clusterCount > 0 && s > 0
    ensures Representable(run, s)
       <==> run.clusterCount * s < U64_LIMIT && (run.lcn.value + run.clusterCount) * s <= U64_LIMIT
  {
    var lcn, count := run.lcn.value, run.clusterCount;
    Distribute(lcn, count, s);
    MulNonNegative(lcn, s);
    MulMonotone(1, count, s);
    MulMonotone(1, s, lcn + count);
  }

  /** From the bytes of an attribute to the bytes of a file: a stored attribute whose runs all have sector ranges and
      lie in the image is recovered to its recorded size, and every byte is where the runs say. */
  lemma StoredFileIsRecovered(e: Engine, img: Image, buffer: seq<Byte>, length: U32, offset: U16, size: U64,
                              runs: seq<DataRun>, ws: seq<Widths>, tail: seq<Byte>, s: U64, entry: Entry)
    requires AllFit(runs, ws) && IsNonResident(buffer, length, offset, size, Encode(runs, ws) + tail)
    requires 0 < s && s * 512 < U64_LIMIT && e.bytesPerSector == 512 && 0 < size < U64_MAX
    requires TotalClusters(runs) < U64_LIMIT && size <= TotalClusters(runs) * (s * 512)
    requires forall i | 0 <= i < |runs| :: RunInImage(e, img, runs[i], s)
    requires ParseDataAttribute(buffer).Ok? && EntryFor(entry, ParseDataAttribute(buffer).value, s)
    ensures var outcome := e.Outcome(img, entry);
      && outcome.Ok? && outcome.value.Recovered? && |outcome.value.data| == size
      && FollowsRuns(img, e.partitionOffset, s * 512, runs, outcome.value.data)
  {
    NonResidentParses(buffer, length, offset, size, runs, ws, tail);
    ParsedIsWellFormed(buffer);
    var reader, a := DataRunReader(e.partitionOffset, s * 512), ParseDataAttribute(buffer).value;
    forall i | 0 <= i < |runs| ensures RunIsRead(reader, img, runs[i], s) {
      assert runs[i] in runs && RunInImage(e, img, runs[i], s);
      InImageIsRead(e, img, runs[i], s);
    }
    AllAreRead(reader, img, runs, s, size);
    DirectReadFollowsRuns(reader, img, a);
    EndToEnd(e, img, a, entry, s);
  }

  /** A stored resident attribute is recovered as it is stored. */
  lemma StoredResidentIsRecovered(e: Engine, img: Image, buffer: seq<Byte>, length: U32, offset: U16, data: seq<Byte>,
                                  s: U64, entry: Entry)
    requires IsResident(buffer, length, offset, data) && 0 < s && s * 512 < U64_LIMIT
    requires ParseDataAttribute(buffer).Ok? && EntryFor(entry, ParseDataAttribute(buffer).value, s)
    ensures e.Outcome(img, entry) == Ok(Recovered(data))
  {
    ResidentParses(buffer, length, offset, data);
    ResidentEndToEnd(e, img, ParseDataAttribute(buffer).value, entry, s);
  }

  /** A hole that fits 64 bits, or a run whose clusters lie in the image and whose sectors fit 64 bits. */
  ghost predicate RunInImage(e: Engine, img: Image, run: DataRun, s: U64) {
    && run.clusterCount * (s * 512) < U64_LIMIT
    && (run.lcn.Some? ==> e.partitionOffset + (run.lcn.value + run.clusterCount) * (s * 512) <= |img|)
  }

  ghost predicate RunIsRead(reader: DataRunReader, img: Image, run: DataRun, s: U64) {
    Representable(run, s) && reader.ReadRun(img, run).Ok?
  }

  lemma InImageIsRead(e: Engine, img: Image, run: DataRun, s: U64)
    requires 0 < s && s * 512 < U64_LIMIT && run.clusterCount > 0 && (run.lcn.Some? ==> run.lcn.value >= 0)
    requires RunInImage(e, img, run, s)
    ensures RunIsRead(DataRunReader(e.partitionOffset, s * 512), img, run, s)
  {
    MulNonNegative(run.clusterCount, s * 512);
    if run.lcn.Some? {
      var lcn, count := run.lcn.value, run.clusterCount;
      Distribute(lcn, count, s * 512);
      MulNonNegative(lcn, s * 512);
      Scale(lcn + count, s);
      Scale(count, s);
      MulNonNegative(count, s);
      RepresentableIff(run, s);
    }
  }

  lemma {:induction false} TotalRead(reader: DataRunReader, img: Image, runs: seq<DataRun>)
    requires forall i | 0 <= i < |runs| :: reader.ReadRun(img, runs[i]).Ok?
    ensures AllOk(reader.RunContents(img, runs))
    ensures |ReadablePrefix(reader.RunContents(img, runs))| == TotalClusters(runs) * reader.bytesPerCluster
  {
    if runs != [] {
      var parts := reader.RunContents(img, runs);
      assert parts[1..] == reader.RunContents(img, runs[1..]);
      TotalRead(reader, img, runs[1..]);
      FirstSize(reader, img, runs[0]);
      Distribute(runs[0].clusterCount, TotalClusters(runs[1..]), reader.bytesPerCluster);
    }
  }

  lemma AllAreRead(reader: DataRunReader, img: Image, runs: seq<DataRun>, s: U64, size: U64)
    requires forall i | 0 <= i < |runs| :: RunIsRead(reader, img, runs[i], s)
    requires size <= TotalClusters(runs) * reader.bytesPerCluster && reader.bytesPerCluster == s * 512
    ensures reader.RunsContent(img, runs, size).Ok? && ReachedRepresentable(runs, s, size)
  {
    TotalRead(reader, img, runs);
    GatherMeaning(reader.RunContents(img, runs), Some(size));
    AllGood(seq(|runs|, i requires 0 <= i < |runs| => Representable(runs[i], s)), RunSizes(runs, s * 512), size);
  }

  lemma {:induction false} AllGood(good: seq<bool>, sizes: seq<nat>, size: nat)
    requires |good| == |sizes| && forall i | 0 <= i < |good| :: good[i]
    ensures ReachedAll(good, sizes, size)
  {
    if good != [] && sizes[0] < size {
      AllGood(good[1..], sizes[1..], size - sizes[0]);
    }
  }
}
