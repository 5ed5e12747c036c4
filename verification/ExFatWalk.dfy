/** The exFAT investigation: a breadth-first walk that numbers every object it finds. */
module ExFatWalk {
  import opened Machine
  import opened Evidence
  import opened ExFatVolume
  import opened ExFatDirectory

  /** A registered object. Object ids count entries, so they stay unbounded here. */
  datatype WalkEntry = WalkEntry(
    objectId: nat, parentId: nat, name: RecordName, kind: RecordKind, deleted: bool, realSize: U64, attributes: Byte,
    cluster: U32, chain: seq<U32>, timestamps: Option<(U32, U32, U32)>)
  {
    predicate IsDirectory() { kind == FolderRecord }
  }

  /** A directory that was found but not walked yet. */
  datatype Pending = Pending(cluster: U32, parentId: nat, name: RecordName)

  const MAX_DIRECTORY_BYTES := 0x10_0000

  datatype Volume = Volume(img: Image, reader: ExFatReader) {
    ghost predicate Valid() { reader.boot.Valid() }

    function ChainOf(start: U32, maxClusters: U64): Result<seq<U32>>
      requires Valid()
    {
      reader.ChainOf(img, start, maxClusters)
    }

    function ReadDirectoryCluster(cluster: U32): Result<seq<Byte>>
      requires Valid()
    {
      var size := reader.boot.ClusterSize();
      if size > MAX_DIRECTORY_BYTES then Err(InvalidFormat) else reader.ReadCluster(img, cluster, size)
    }

    /** The records of the directory clusters, in chain order. */
    function Contents(chain: seq<U32>): Result<seq<DirectoryRecord>>
      requires Valid()
    {
      if chain == [] then Ok([])
      else
        var buffer :- ReadDirectoryCluster(chain[0]);
        Prepend(Records(buffer, 0), Contents(chain[1..]))
    }

    /** The entry a record that is not a directory turns into. */
    function EntryOf(parentId: nat, p: DirectoryRecord, id: nat): (e: WalkEntry)
      requires Valid() && p.kind != FolderRecord
      ensures e.objectId == id && e.parentId == parentId && e.kind == p.kind
    {
      match p.kind
      case VolumeLabel => WalkEntry(id, parentId, p.name, VolumeLabel, false, 0, p.attributes, 0, [], None)
      case AllocationBitmap => WalkEntry(id, parentId, p.name, p.kind, false, 0, p.attributes, p.cluster, [], None)
      case UpCaseTable => WalkEntry(id, parentId, p.name, p.kind, false, 0, p.attributes, p.cluster, [], None)
      case FileRecord => WalkEntry(id, parentId, p.name, FileRecord, p.deleted, p.size, p.attributes, p.cluster,
                                   reader.FileChain(img, p.cluster, p.size), Some((p.created, p.modified, p.accessed)))
    }

    /** The entries of all records that are not directories, numbered from `id`. */
    function FileEntries(parentId: nat, records: seq<DirectoryRecord>, id: nat): seq<WalkEntry>
      requires Valid()
    {
      if records == [] then []
      else
        var front := FileEntries(parentId, records[..|records| - 1], id);
        var p := records[|records| - 1];
        if p.kind == FolderRecord then front else front + [EntryOf(parentId, p, id + |front|)]
    }
  }

  predicate Enters(p: DirectoryRecord, visited: set<U32>) {
    p.kind == FolderRecord && p.cluster >= 2 && p.cluster !in visited
  }

  /** The directories among the records whose start cluster was not seen before. */
  function NewDirectories(parentId: nat, records: seq<DirectoryRecord>, visited: set<U32>): seq<Pending> {
    if records == [] then []
    else
      var front := NewDirectories(parentId, records[..|records| - 1], visited);
      var p := records[|records| - 1];
      if Enters(p, visited + Clusters(front)) then front + [Pending(p.cluster, parentId, p.name)] else front
  }

  function Clusters(queue: seq<Pending>): set<U32> {
    set q | q in queue :: q.cluster
  }

  lemma ClustersAppend(queue: seq<Pending>, q: Pending)
    ensures Clusters(queue + [q]) == Clusters(queue) + {q.cluster}
  {
    assert q in queue + [q];
    forall c | c in Clusters(queue) + {q.cluster} ensures c in Clusters(queue + [q]) {
      if c in Clusters(queue) {
        var p :| p in queue && p.cluster == c;
        assert p in queue + [q];
      }
    }
  }

  // ----- the walk -----

  datatype WalkState = WalkState(entries: seq<WalkEntry>, records: nat, nextId: nat, visited: set<U32>,
    queue: seq<Pending>) {
    /** The state after registering `records`, found in directory `parentId`. */
    ghost function Registered(v: Volume, parentId: nat, found: seq<DirectoryRecord>): WalkState
      requires v.Valid()
    {
      var files := v.FileEntries(parentId, found, nextId);
      var dirs := NewDirectories(parentId, found, visited);
      WalkState(entries + files, records, nextId + |files|, visited + Clusters(dirs), queue + dirs)
    }

    /** The state after adding the directory itself. */
    ghost function Entered(d: Pending, chain: seq<U32>): WalkState {
      WalkState(entries + [WalkEntry(nextId, d.parentId, d.name, FolderRecord, false, 0, 0x10, d.cluster, chain, None)],
                records, nextId + 1, visited, queue)
    }

    /** The state after walking one directory, wholly or not at all. */
    ghost function Walked(v: Volume, d: Pending): Result<WalkState>
      requires v.Valid()
    {
      var chain :- v.ChainOf(d.cluster, v.reader.boot.clusterCount);
      if chain == [] then Ok(this)
      else
        Entered(d, chain).Scanned(v, nextId, chain)
    }

    /** The state after reading the clusters of directory `parentId`. */
    ghost function Scanned(v: Volume, parentId: nat, chain: seq<U32>): Result<WalkState>
      requires v.Valid()
    {
      var found :- v.Contents(chain);
      Ok(Registered(v, parentId, found).(records := records + |chain|))
    }
  }

  lemma RegisterNothing(s: WalkState, v: Volume, parentId: nat)
    requires v.Valid()
    ensures s.Registered(v, parentId, []) == s
  {
    assert s.entries + [] == s.entries && s.queue + [] == s.queue && s.visited + {} == s.visited;
    assert Clusters([]) == {};
  }

  lemma WalkedIsScanned(s: WalkState, v: Volume, d: Pending, chain: seq<U32>)
    requires v.Valid() && v.ChainOf(d.cluster, v.reader.boot.clusterCount) == Ok(chain) && chain != []
    ensures s.Walked(v, d) == s.Entered(d, chain).Scanned(v, s.nextId, chain)
  {}

  class ExFatInvestigation {
    const volume: Volume
    var entries: seq<WalkEntry>
    var records: nat
    var nextId: nat
    var visitedDirs: set<U32>
    var queue: seq<Pending>

    constructor (volume: Volume)
      requires volume.Valid()
      ensures this.volume == volume
      ensures State() == Initial(volume)
    {
      this.volume := volume;
      entries := [];
      records := 0;
      nextId := 1;
      visitedDirs := {volume.reader.boot.rootDirectoryCluster};
      queue := [Pending(volume.reader.boot.rootDirectoryCluster, 1, RootLabel)];
    }

    ghost function State(): WalkState
      reads this
    {
      WalkState(entries, records, nextId, visitedDirs, queue)
    }

    method AddEntry(e: WalkEntry)
      modifies `entries
      ensures entries == old(entries) + [e]
    {
      entries := entries + [e];
    }

    method ResolveFileChain(p: DirectoryRecord) returns (chain: seq<U32>)
      requires volume.Valid()
      ensures chain == volume.reader.FileChain(volume.img, p.cluster, p.size)
    {
      if p.cluster < 2 || p.size == 0 {
        return [];
      }
      ClusterSizeFits(volume.reader.boot);
      var bytesPerCluster := volume.reader.boot.ClusterSize();
      BudgetFits(p.size, bytesPerCluster);
      var needed := DivCeil(p.size, bytesPerCluster);
      var walked := volume.reader.WalkChain(volume.img, p.cluster, Max(needed, 1));
      chain := if walked.Ok? then walked.value else [];
    }

    method RegisterEntry(parentId: nat, p: DirectoryRecord)
      requires volume.Valid()
      modifies this
      ensures State() == old(State()).Registered(volume, parentId, [p])
    {
      RegisterOne(State(), volume, parentId, p);
      if p.kind == VolumeLabel {
        AddEntry(WalkEntry(nextId, parentId, p.name, VolumeLabel, false, 0, p.attributes, 0, [], None));
        nextId := nextId + 1;
        return;
      }
      if p.kind == AllocationBitmap || p.kind == UpCaseTable {
        AddEntry(WalkEntry(nextId, parentId, p.name, p.kind, false, 0, p.attributes, p.cluster, [], None));
        nextId := nextId + 1;
        return;
      }
      if p.kind == FolderRecord {
        if p.cluster >= 2 && p.cluster !in visitedDirs {
          visitedDirs := visitedDirs + {p.cluster};
          queue := queue + [Pending(p.cluster, parentId, p.name)];
        }
        return;
      }
      var chain := ResolveFileChain(p);
      AddEntry(WalkEntry(nextId, parentId, p.name, FileRecord, p.deleted, p.size, p.attributes, p.cluster, chain,
                         Some((p.created, p.modified, p.accessed))));
      nextId := nextId + 1;
    }

    method Investigate() returns (r: Result<()>)
      requires volume.Valid()
      modifies this
      ensures r.Ok? <==> Run(volume, old(State())).Ok?
      ensures r.Ok? ==> State() == Run(volume, old(State())).value
      ensures r.Err? ==> r.error == Run(volume, old(State())).error
    {
      while queue != []
        invariant Run(volume, State()) == Run(volume, old(State()))
        decreases Remaining(State())
      {
        var next := queue[0];
        PopShrinks(volume, State());
        queue := queue[1..];
        var walked := WalkDirectory(next);
        if walked.Err? {
          return Err(walked.error);
        }
      }
      r := Ok(());
    }

    /** True when the directory had clusters to walk. */
    method WalkDirectory(d: Pending) returns (r: Result<bool>)
      requires volume.Valid()
      modifies this
      ensures r.Ok? <==> old(State()).Walked(volume, d).Ok?
      ensures r.Ok? ==> State() == old(State()).Walked(volume, d).value
      ensures r.Err? ==> r.error == old(State()).Walked(volume, d).error
    {
      ghost var start := State();
      var walked := volume.reader.WalkChain(volume.img, d.cluster, volume.reader.boot.clusterCount);
      if walked.Err? {
        return Err(walked.error);
      }
      var chain := walked.value;
      if chain == [] {
        return Ok(false);
      }
      WalkedIsScanned(start, volume, d, chain);
      r := EnterDirectory(d, chain);
    }

    /** Adds the directory and registers what its clusters hold. */
    method EnterDirectory(d: Pending, chain: seq<U32>) returns (r: Result<bool>)
      requires volume.Valid()
      modifies this
      ensures var spec := old(State()).Entered(d, chain).Scanned(volume, old(State()).nextId, chain);
        if spec.Err? then r == Err(spec.error) else r == Ok(true) && State() == spec.value
    {
      var objectId := nextId;
      nextId := nextId + 1;
      AddEntry(WalkEntry(objectId, d.parentId, d.name, FolderRecord, false, 0, 0x10, d.cluster, chain, None));
      assert State() == old(State()).Entered(d, chain);
      var scanned := ScanClusters(objectId, chain);
      r := if scanned.Err? then Err(scanned.error) else Ok(true);
    }

    /** The loop of the directory walk over the clusters of one directory. */
    method ScanClusters(objectId: nat, chain: seq<U32>) returns (r: Result<()>)
      requires volume.Valid()
      modifies this
      ensures r.Ok? <==> old(State()).Scanned(volume, objectId, chain).Ok?
      ensures r.Ok? ==> State() == old(State()).Scanned(volume, objectId, chain).value
      ensures r.Err? ==> r.error == old(State()).Scanned(volume, objectId, chain).error
    {
      ghost var entered := State();
      ghost var found: seq<DirectoryRecord> := [];
      RegisterNothing(entered, volume, objectId);
      PrependNothing(volume.Contents(chain));
      assert chain[0..] == chain;
      for i := 0 to |chain|
        invariant volume.Contents(chain) == Prepend(found, volume.Contents(chain[i..]))
        invariant State() == entered.Registered(volume, objectId, found).(records := entered.records + i)
      {
        var buffer := volume.ReadDirectoryCluster(chain[i]);
        if buffer.Err? {
          return Err(buffer.error);
        }
        records := records + 1;
        var parsed := ParseDirectoryEntries(buffer.value);
        PrependTwice(found, parsed, volume.Contents(chain[i + 1..]));
        assert chain[i..][1..] == chain[i + 1..];
        RegisterCluster(objectId, parsed, entered, found, entered.records + i + 1);
        found := found + parsed;
      }
      assert found + [] == found;
      r := Ok(());
    }

    /** Registers all records of one cluster. */
    method RegisterCluster(objectId: nat, parsed: seq<DirectoryRecord>, ghost entered: WalkState,
                           ghost found: seq<DirectoryRecord>, ghost count: nat)
      requires volume.Valid()
      requires State() == entered.Registered(volume, objectId, found).(records := count)
      modifies this
      ensures State() == entered.Registered(volume, objectId, found + parsed).(records := count)
    {
      assert found + parsed[..0] == found;
      for j := 0 to |parsed|
        invariant State() == entered.Registered(volume, objectId, found + parsed[..j]).(records := count)
      {
        RegisterLast(entered, volume, objectId, found + parsed[..j], parsed[j], count);
        assert found + parsed[..j] + [parsed[j]] == found + parsed[..j + 1];
        RegisterEntry(objectId, parsed[j]);
      }
      assert found + parsed[..|parsed|] == found + parsed;
    }
  }

  function Initial(v: Volume): WalkState {
    var root := v.reader.boot.rootDirectoryCluster;
    WalkState([], 0, 1, {root}, [Pending(root, 1, RootLabel)])
  }

  lemma RegisterOne(s: WalkState, v: Volume, parentId: nat, p: DirectoryRecord)
    requires v.Valid()
    ensures s.Registered(v, parentId, [p]) ==
      if p.kind != FolderRecord then
        s.(entries := s.entries + [v.EntryOf(parentId, p, s.nextId)], nextId := s.nextId + 1)
      else if p.cluster < 2 || p.cluster in s.visited then s
      else s.(visited := s.visited + {p.cluster}, queue := s.queue + [Pending(p.cluster, parentId, p.name)])
  {
    assert [p][..0] == [];
    assert v.FileEntries(parentId, [], s.nextId) == [];
    assert NewDirectories(parentId, [], s.visited) == [];
    assert s.entries + [] == s.entries && s.queue + [] == s.queue;
    assert Clusters([]) == {} && s.visited + {} == s.visited;
    ClustersAppend([], Pending(p.cluster, parentId, p.name));
    assert [] + [Pending(p.cluster, parentId, p.name)] == [Pending(p.cluster, parentId, p.name)];
  }

  /** Registering one more record extends what was registered so far. */
  lemma RegisterLast(s: WalkState, v: Volume, parentId: nat, found: seq<DirectoryRecord>, p: DirectoryRecord,
      count: nat)
    requires v.Valid()
    ensures s.Registered(v, parentId, found + [p]).(records := count)
         == s.Registered(v, parentId, found).(records := count).Registered(v, parentId, [p])
  {
    var t := s.Registered(v, parentId, found).(records := count);
    RegisterOne(t, v, parentId, p);
    assert (found + [p])[..|found|] == found;
    var files := v.FileEntries(parentId, found, s.nextId);
    var dirs := NewDirectories(parentId, found, s.visited);
    if p.kind != FolderRecord {
      assert s.entries + (files + [v.EntryOf(parentId, p, t.nextId)]) == t.entries + [v.EntryOf(parentId, p, t.nextId)];
    } else if Enters(p, t.visited) {
      var q := Pending(p.cluster, parentId, p.name);
      ClustersAppend(dirs, q);
      assert s.queue + (dirs + [q]) == t.queue + [q];
      assert s.visited + (Clusters(dirs) + {q.cluster}) == t.visited + {q.cluster};
    }
  }

  // ----- termination -----

  ghost function Remaining(s: WalkState): nat {
    BoundedSetSize(s.visited, 0, 0x1_0000_0000);
    0x1_0000_0000 - |s.visited| + |s.queue|
  }

  ghost function Popped(s: WalkState): WalkState
    requires s.queue != []
  {
    s.(queue := s.queue[1..])
  }

  /** The whole walk. */
  ghost function Run(v: Volume, s: WalkState): Result<WalkState>
    requires v.Valid()
    decreases Remaining(s)
  {
    if s.queue == [] then Ok(s)
    else
      PopShrinks(v, s);
      var next :- Popped(s).Walked(v, s.queue[0]);
      Run(v, next)
  }

  /** Every newly found directory uses up a cluster number, so the walk ends on any volume. */
  lemma PopShrinks(v: Volume, s: WalkState)
    requires v.Valid() && s.queue != []
    ensures Popped(s).Walked(v, s.queue[0]).Ok? ==> Remaining(Popped(s).Walked(v, s.queue[0]).value) < Remaining(s)
  {
    var step := Popped(s).Walked(v, s.queue[0]);
    if step.Ok? {
      var chain := v.ChainOf(s.queue[0].cluster, v.reader.boot.clusterCount).value;
      if chain != [] {
        var dirs := NewDirectories(s.nextId, v.Contents(chain).value, s.visited);
        NewDirectoriesAreNew(s.nextId, v.Contents(chain).value, s.visited);
        assert step.value.visited == s.visited + Clusters(dirs);
        assert |s.visited + Clusters(dirs)| == |s.visited| + |dirs|;
      }
    }
  }

  /** Directories found in `parentId` whose start clusters differ from each other and from the visited ones. */
  ghost predicate AreNew(dirs: seq<Pending>, parentId: nat, visited: set<U32>) {
    Clusters(dirs) !! visited && |Clusters(dirs)| == |dirs| && AllDiffer(dirs) && AllIn(dirs, parentId)
  }

  ghost predicate AllDiffer(dirs: seq<Pending>) {
    forall i, j | 0 <= i < j < |dirs| :: dirs[i].cluster != dirs[j].cluster
  }

  ghost predicate AllIn(dirs: seq<Pending>, parentId: nat) {
    forall i | 0 <= i < |dirs| :: dirs[i].parentId == parentId && dirs[i].cluster >= 2
  }

  lemma OneMoreDiffers(dirs: seq<Pending>, q: Pending)
    requires AllDiffer(dirs) && q.cluster !in Clusters(dirs)
    ensures AllDiffer(dirs + [q])
  {
    forall i | 0 <= i < |dirs| ensures dirs[i].cluster != q.cluster {
      assert dirs[i] in dirs;
    }
  }

  lemma OneMoreIsNew(dirs: seq<Pending>, parentId: nat, visited: set<U32>, q: Pending)
    requires AreNew(dirs, parentId, visited)
    requires q.parentId == parentId && q.cluster >= 2 && q.cluster !in visited + Clusters(dirs)
    ensures AreNew(dirs + [q], parentId, visited)
  {
    ClustersAppend(dirs, q);
    OneMoreDiffers(dirs, q);
    OneMoreIsIn(dirs, parentId, q);
    OneMoreCluster(Clusters(dirs), visited, q.cluster);
  }

  lemma OneMoreIsIn(dirs: seq<Pending>, parentId: nat, q: Pending)
    requires AllIn(dirs, parentId) && q.parentId == parentId && q.cluster >= 2
    ensures AllIn(dirs + [q], parentId)
  {}

  lemma OneMoreCluster(known: set<U32>, visited: set<U32>, c: U32)
    requires known !! visited && c !in visited + known
    ensures known + {c} !! visited && |known + {c}| == |known| + 1
  {}

  lemma {:induction false} NewDirectoriesAreNew(parentId: nat, records: seq<DirectoryRecord>, visited: set<U32>)
    ensures AreNew(NewDirectories(parentId, records, visited), parentId, visited)
  {
    if records == [] {
      assert Clusters([]) == {};
    } else {
      var p := records[|records| - 1];
      NewDirectoriesAreNew(parentId, records[..|records| - 1], visited);
      var front := NewDirectories(parentId, records[..|records| - 1], visited);
      if Enters(p, visited + Clusters(front)) {
        OneMoreIsNew(front, parentId, visited, Pending(p.cluster, parentId, p.name));
      }
    }
  }
}
