/** The FAT32 investigation: a breadth-first walk over directories with de-duplication. The decoding of a directory
    cluster into records is a parameter. */
module Fat32Walk {
  import opened Machine
  import opened Fat32Volume
  import opened Fat32Investigation

  /** One decoded directory record. */
  datatype FoundRecord = FoundRecord(name: string, attributes: Byte, cluster: U32, size: U32, deleted: bool) {
    predicate IsDirectory() { (attributes / 16) % 2 == 1 }
    predicate IsVolumeLabel() { (attributes / 8) % 2 == 1 }
  }

  type Parser = seq<Byte> -> seq<FoundRecord>

  /** A directory that was found but not walked yet. */
  datatype Pending = Pending(cluster: U32, parentId: nat, name: string)

  const MAX_DIRECTORY_BYTES := 0x10_0000

  // ----- directory markers -----

  const DOT: seq<Byte> := [0x2E, 0x20, 0x20, 0x20, 0x20, 0x20, 0x20, 0x20, 0x20, 0x20, 0x20]
  const DOT_DOT: seq<Byte> := [0x2E, 0x2E, 0x20, 0x20, 0x20, 0x20, 0x20, 0x20, 0x20, 0x20, 0x20]

  /** A "." or ".." slot, also when its first byte was overwritten by the deletion mark. */
  predicate IsMarker(name: seq<Byte>)
    requires |name| == 11
  {
    var restored := [if name[0] == 0xE5 then 0x2E else name[0]] + name[1..];
    restored == DOT || restored == DOT_DOT
  }

  /** Slot k exists, as do all slots before it, and none of them is an end mark. */
  predicate SlotReached(buffer: seq<Byte>, k: nat) {
    32 * k + 32 <= |buffer| && forall i | 0 <= i <= k :: buffer[32 * i] != 0
  }

  /** One of the first three slots is a marker. */
  predicate HasMarkers(buffer: seq<Byte>) {
    exists k | 0 <= k < 3 :: SlotReached(buffer, k) && IsMarker(buffer[32 * k..32 * k + 11])
  }

  method HasDirectoryMarkers(buffer: seq<Byte>) returns (found: bool)
    ensures found == HasMarkers(buffer)
  {
    for k := 0 to 3
      invariant forall i | 0 <= i < k :: SlotReached(buffer, i) && !IsMarker(buffer[32 * i..32 * i + 11])
    {
      if 32 * k + 32 > |buffer| {
        return false;
      }
      if buffer[32 * k] == 0 {
        return false;
      }
      assert SlotReached(buffer, k) by {
        if k > 0 {
          assert SlotReached(buffer, k - 1);
        }
      }
      if IsMarker(buffer[32 * k..32 * k + 11]) {
        return true;
      }
    }
    found := false;
  }

  /** A "." or ".." entry, live or deleted. */
  ghost predicate IsDotSlot(buffer: seq<Byte>, at: nat) {
    && at + 11 <= |buffer| && buffer[at] in {0x2E, 0xE5} && buffer[at + 1] in {0x20, 0x2E}
    && buffer[at + 2..at + 11] == [0x20, 0x20, 0x20, 0x20, 0x20, 0x20, 0x20, 0x20, 0x20]
  }

  ghost predicate IsDotSlotAt(buffer: seq<Byte>, k: nat) {
    32 * k + 32 <= |buffer| && IsDotSlot(buffer, 32 * k) && forall i: nat | i <= k :: buffer[32 * i] != 0
  }

  /** A cluster passes as a directory exactly when one of its first three slots, none before it being an end mark, is
      a dot entry. */
  lemma MarkersIff(buffer: seq<Byte>)
    ensures HasMarkers(buffer) <==> IsDotSlotAt(buffer, 0) || IsDotSlotAt(buffer, 1) || IsDotSlotAt(buffer, 2)
  {
    forall k: nat | k < 3 ensures
      SlotReached(buffer, k) && IsMarker(buffer[32 * k..32 * k + 11]) <==> IsDotSlotAt(buffer, k)
    {
      if SlotReached(buffer, k) {
        MarkerIff(buffer, 32 * k);
      }
    }
  }

  lemma MarkerIff(buffer: seq<Byte>, at: nat)
    requires at + 11 <= |buffer|
    ensures IsMarker(buffer[at..at + 11]) <==> IsDotSlot(buffer, at)
  {
    var name := buffer[at..at + 11];
    var restored := [if name[0] == 0xE5 then 0x2E else name[0]] + name[1..];
    assert restored == [restored[0], name[1]] + buffer[at + 2..at + 11];
    assert DOT == [0x2E, 0x20] + SPACES && DOT_DOT == [0x2E, 0x2E] + SPACES;
    SplitsAlike([restored[0], name[1]], [0x2E, 0x20], buffer[at + 2..at + 11], SPACES);
    SplitsAlike([restored[0], name[1]], [0x2E, 0x2E], buffer[at + 2..at + 11], SPACES);
  }

  const SPACES: seq<Byte> := [0x20, 0x20, 0x20, 0x20, 0x20, 0x20, 0x20, 0x20, 0x20]

  lemma SplitsAlike<T>(a: seq<T>, b: seq<T>, c: seq<T>, d: seq<T>)
    requires |a| == |b|
    ensures a + c == b + d <==> a == b && c == d
  {
    if a + c == b + d {
      assert (a + c)[..|a|] == a && (b + d)[..|a|] == b && (a + c)[|a|..] == c && (b + d)[|a|..] == d;
    }
  }

  // ----- what a walk does -----

  datatype WalkState = WalkState(
    added: seq<FoundEntry>, records: nat, nextId: nat, visited: set<U32>, queue: seq<Pending>)

  datatype Volume = Volume(disk: Fat32Disk, parse: Parser) {
    ghost predicate Valid() { disk.boot.Valid() }

    function ReadDirectoryCluster(cluster: U32): Result<seq<Byte>> {
      if disk.boot.ClusterSize() > MAX_DIRECTORY_BYTES then Err(InvalidFormat)
      else disk.ReadCluster(cluster, disk.boot.ClusterSize())
    }

    /** The clusters to walk: none outside the data area or where a directory's first cluster lacks its markers. */
    function DirectoryChain(cluster: U32): Result<seq<U32>> {
      if !(2 <= cluster <= disk.boot.totalClusters) then Ok([])
      else if cluster == disk.boot.rootCluster then disk.ChainOf(cluster, disk.boot.totalClusters)
      else
        var first :- ReadDirectoryCluster(cluster);
        if HasMarkers(first) then disk.ChainOf(cluster, disk.boot.totalClusters) else Ok([])
    }

    function EntryOf(parentId: nat, p: FoundRecord, id: nat): (e: FoundEntry)
      requires Valid() && (p.IsVolumeLabel() || !p.IsDirectory())
      ensures e.objectId == id && e.parentId == parentId && !e.isDirectory
    {
      if p.IsVolumeLabel() then FoundEntry(id, parentId, p.name, false, true, false, 0, p.attributes, 0, [])
      else FoundEntry(id, parentId, p.name, false, false, p.deleted, p.size, p.attributes, p.cluster,
                      disk.FileChain(p.cluster, p.size))
    }

    function Register(s: WalkState, parentId: nat, p: FoundRecord): WalkState
      requires Valid()
    {
      if !p.IsVolumeLabel() && p.IsDirectory() then
        if p.cluster >= 2 && p.cluster !in s.visited
        then s.(visited := s.visited + {p.cluster}, queue := s.queue + [Pending(p.cluster, parentId, p.name)])
        else s
      else s.(added := s.added + [EntryOf(parentId, p, s.nextId)], nextId := s.nextId + 1)
    }

    function RegisterAll(s: WalkState, parentId: nat, records: seq<FoundRecord>): WalkState
      requires Valid()
    {
      if records == [] then s
      else Register(RegisterAll(s, parentId, records[..|records| - 1]), parentId, records[|records| - 1])
    }

    function Scan(s: WalkState, parentId: nat, chain: seq<U32>): Result<WalkState>
      requires Valid()
      decreases |chain|
    {
      if chain == [] then Ok(s)
      else
        var buffer :- ReadDirectoryCluster(chain[0]);
        Scan(RegisterAll(s.(records := s.records + 1), parentId, parse(buffer)), parentId, chain[1..])
    }

    function Entered(s: WalkState, d: Pending, chain: seq<U32>): WalkState {
      s.(added := s.added + [FoundEntry(s.nextId, d.parentId, d.name, true, false, false, 0, 0x10, d.cluster, chain)],
         nextId := s.nextId + 1)
    }

    function Walked(s: WalkState, d: Pending): Result<WalkState>
      requires Valid()
    {
      var chain :- DirectoryChain(d.cluster);
      if chain == [] then Ok(s) else Scan(Entered(s, d, chain), s.nextId, chain)
    }
  }

  /** Which directories are followed: a cluster outside the data area never, the root always, any other exactly when it
      can be read and passes as a directory. */
  lemma DirectoryIsFollowedIff(v: Volume, cluster: U32)
    ensures !(2 <= cluster <= v.disk.boot.totalClusters) ==> v.DirectoryChain(cluster) == Ok([])
    ensures 2 <= cluster <= v.disk.boot.totalClusters ==>
      var first, chain := v.ReadDirectoryCluster(cluster), v.disk.ChainOf(cluster, v.disk.boot.totalClusters);
      if cluster == v.disk.boot.rootCluster then v.DirectoryChain(cluster) == chain
      else if first.Err? then v.DirectoryChain(cluster).Err?
      else if IsDotSlotAt(first.value, 0) || IsDotSlotAt(first.value, 1) || IsDotSlotAt(first.value, 2)
      then v.DirectoryChain(cluster) == chain
      else v.DirectoryChain(cluster) == Ok([])
  {
    if 2 <= cluster <= v.disk.boot.totalClusters && v.ReadDirectoryCluster(cluster).Ok? {
      MarkersIff(v.ReadDirectoryCluster(cluster).value);
    }
  }

  function Initial(v: Volume): WalkState {
    var root := v.disk.boot.rootCluster;
    WalkState([], 0, 1, {root}, [Pending(root, 1, "/")])
  }

  function Popped(s: WalkState): WalkState
    requires s.queue != []
  {
    s.(queue := s.queue[1..])
  }

  // ----- termination -----

  function Remaining(s: WalkState): nat {
    BoundedSetSize(s.visited, 0, 0x1_0000_0000);
    0x1_0000_0000 - |s.visited| + |s.queue|
  }

  lemma {:induction false} RegisteringKeepsRemaining(v: Volume, s: WalkState, parentId: nat, records: seq<FoundRecord>)
    requires v.Valid()
    ensures Remaining(v.RegisterAll(s, parentId, records)) == Remaining(s)
  {
    if records != [] {
      RegisteringKeepsRemaining(v, s, parentId, records[..|records| - 1]);
    }
  }

  lemma {:induction false} ScanKeepsRemaining(v: Volume, s: WalkState, parentId: nat, chain: seq<U32>)
    requires v.Valid() && v.Scan(s, parentId, chain).Ok?
    ensures Remaining(v.Scan(s, parentId, chain).value) == Remaining(s)
    decreases |chain|
  {
    if chain != [] {
      var records := v.parse(v.ReadDirectoryCluster(chain[0]).value);
      var counted := s.(records := s.records + 1);
      RegisteringKeepsRemaining(v, counted, parentId, records);
      ScanKeepsRemaining(v, v.RegisterAll(counted, parentId, records), parentId, chain[1..]);
    }
  }

  /** One more directory cluster parsed. */
  function Counted(s: WalkState): WalkState {
    s.(records := s.records + 1)
  }

  lemma ScanStep(v: Volume, s: WalkState, parentId: nat, chain: seq<U32>, i: nat)
    requires v.Valid() && i < |chain|
    ensures var buffer := v.ReadDirectoryCluster(chain[i]);
      v.Scan(s, parentId, chain[i..]) ==
        if buffer.Err? then Err(buffer.error)
        else v.Scan(v.RegisterAll(Counted(s), parentId, v.parse(buffer.value)), parentId, chain[i + 1..])
  {
    assert chain[i..][1..] == chain[i + 1..];
  }

  /** Each step takes one directory off the queue; each one found uses up a cluster number. */
  lemma StepShrinks(v: Volume, s: WalkState)
    requires v.Valid() && s.queue != [] && v.Walked(Popped(s), s.queue[0]).Ok?
    ensures Remaining(v.Walked(Popped(s), s.queue[0]).value) < Remaining(s)
  {
    var d, t := s.queue[0], Popped(s);
    var chain := v.DirectoryChain(d.cluster).value;
    if chain != [] {
      ScanKeepsRemaining(v, v.Entered(t, d, chain), t.nextId, chain);
    }
  }

  /** The whole walk. */
  function Run(v: Volume, s: WalkState): Result<WalkState>
    requires v.Valid()
    decreases Remaining(s)
  {
    if s.queue == [] then Ok(s)
    else
      var next :- v.Walked(Popped(s), s.queue[0]);
      StepShrinks(v, s);
      Run(v, next)
  }

  // ----- the program -----

  class Walk {
    const volume: Volume
    const reader: Fat32Reader
    const investigation: Investigation
    var nextId: nat
    var visitedDirs: set<U32>
    var queue: seq<Pending>

    ghost predicate Valid()
      reads this, reader, investigation
    {
      && volume.Valid() && reader.Valid() && reader.disk == volume.disk && investigation.Valid()
    }

    ghost function State(): WalkState
      reads this, investigation
    {
      WalkState(investigation.added, investigation.records, nextId, visitedDirs, queue)
    }

    constructor (volume: Volume)
      requires volume.Valid()
      ensures Valid() && this.volume == volume && fresh(reader) && fresh(investigation)
      ensures State() == Initial(volume)
    {
      this.volume := volume;
      reader := new Fat32Reader(volume.disk);
      investigation := new Investigation();
      nextId := 1;
      visitedDirs := {volume.disk.boot.rootCluster};
      queue := [Pending(volume.disk.boot.rootCluster, 1, "/")];
    }

    method ResolveFileChain(p: FoundRecord) returns (chain: seq<U32>)
      requires Valid()
      modifies reader
      ensures Valid() && chain == volume.disk.FileChain(p.cluster, p.size)
    {
      if p.cluster < 2 || p.size == 0 {
        return [];
      }
      var bytesPerCluster := volume.disk.boot.ClusterSize();
      BudgetFits(p.size, bytesPerCluster);
      var needed := DivCeil(p.size, bytesPerCluster);
      var walked := reader.WalkChain(p.cluster, Max(needed, 1));
      chain := if walked.Ok? then walked.value else [];
    }

    /** Adds an entry under the next object id. */
    method AddNext(e: FoundEntry)
      requires Valid()
      modifies this, investigation
      ensures Valid()
      ensures State() == old(State()).(added := old(State()).added + [e], nextId := old(State()).nextId + 1)
    {
      investigation.AddEntry(e);
      nextId := nextId + 1;
    }

    method RegisterDirectory(parentId: nat, p: FoundRecord)
      requires Valid() && !p.IsVolumeLabel() && p.IsDirectory()
      modifies this
      ensures Valid() && State() == volume.Register(old(State()), parentId, p)
    {
      if p.cluster >= 2 && p.cluster !in visitedDirs {
        visitedDirs := visitedDirs + {p.cluster};
        queue := queue + [Pending(p.cluster, parentId, p.name)];
      }
    }

    method RegisterEntry(parentId: nat, p: FoundRecord)
      requires Valid()
      modifies this, reader, investigation
      ensures Valid() && State() == volume.Register(old(State()), parentId, p)
    {
      if p.IsVolumeLabel() {
        AddNext(FoundEntry(nextId, parentId, p.name, false, true, false, 0, p.attributes, 0, []));
      } else if p.IsDirectory() {
        RegisterDirectory(parentId, p);
      } else {
        var chain := ResolveFileChain(p);
        AddNext(FoundEntry(nextId, parentId, p.name, false, false, p.deleted, p.size, p.attributes, p.cluster, chain));
      }
    }

    method RegisterCluster(objectId: nat, parsed: seq<FoundRecord>)
      requires Valid()
      modifies this, reader, investigation
      ensures Valid() && State() == volume.RegisterAll(old(State()), objectId, parsed)
    {
      ghost var before := State();
      for j := 0 to |parsed|
        invariant Valid() && State() == volume.RegisterAll(before, objectId, parsed[..j])
      {
        assert parsed[..j + 1][..j] == parsed[..j];
        RegisterEntry(objectId, parsed[j]);
      }
      assert parsed[..|parsed|] == parsed;
    }

    /** Counts one cluster of a directory and registers its records. */
    method ScanCluster(objectId: nat, cluster: U32) returns (r: Result<()>)
      requires Valid()
      modifies this, reader, investigation
      ensures Valid()
      ensures var buffer := volume.ReadDirectoryCluster(cluster);
        if buffer.Err? then r == Err(buffer.error)
        else r.Ok? && State() == volume.RegisterAll(Counted(old(State())), objectId, volume.parse(buffer.value))
    {
      var buffer := volume.ReadDirectoryCluster(cluster);
      if buffer.Err? {
        return Err(buffer.error);
      }
      investigation.IncrementRecords();
      RegisterCluster(objectId, volume.parse(buffer.value));
      r := Ok(());
    }

    method ScanClusters(objectId: nat, chain: seq<U32>) returns (r: Result<()>)
      requires Valid()
      modifies this, reader, investigation
      ensures Valid()
      ensures var spec := volume.Scan(old(State()), objectId, chain);
        if r.Ok? then spec == Ok(State()) else spec == Err(r.error)
    {
      ghost var whole := volume.Scan(State(), objectId, chain);
      assert chain[0..] == chain;
      for i := 0 to |chain|
        invariant Valid() && whole == volume.Scan(State(), objectId, chain[i..])
      {
        ScanStep(volume, State(), objectId, chain, i);
        var scanned := ScanCluster(objectId, chain[i]);
        if scanned.Err? {
          return scanned;
        }
      }
      r := Ok(());
    }

    /** The chain to walk, none for a directory that is skipped. */
    method FindDirectoryChain(cluster: U32) returns (r: Result<seq<U32>>)
      requires Valid()
      modifies reader
      ensures Valid() && r == volume.DirectoryChain(cluster)
    {
      var totalClusters := volume.disk.boot.totalClusters;
      if !(2 <= cluster <= totalClusters) {
        return Ok([]);
      }
      if cluster != volume.disk.boot.rootCluster {
        var first := volume.ReadDirectoryCluster(cluster);
        if first.Err? {
          return Err(first.error);
        }
        var marked := HasDirectoryMarkers(first.value);
        if !marked {
          return Ok([]);
        }
      }
      r := reader.WalkChain(cluster, totalClusters);
    }

    method WalkDirectory(d: Pending) returns (r: Result<bool>)
      requires Valid()
      modifies this, reader, investigation
      ensures Valid()
      ensures var spec := volume.Walked(old(State()), d);
        if r.Ok? then spec == Ok(State()) else spec == Err(r.error)
    {
      var chain := FindDirectoryChain(d.cluster);
      if chain.Err? {
        return Err(chain.error);
      }
      if chain.value == [] {
        return Ok(false);
      }
      r := WalkFound(d, chain.value);
    }

    /** Adds the directory itself and registers what its clusters hold. */
    method WalkFound(d: Pending, chain: seq<U32>) returns (r: Result<bool>)
      requires Valid()
      modifies this, reader, investigation
      ensures Valid()
      ensures var spec := volume.Scan(volume.Entered(old(State()), d, chain), old(State()).nextId, chain);
        if r.Ok? then r.value && spec == Ok(State()) else spec == Err(r.error)
    {
      var objectId := nextId;
      ghost var entered := volume.Entered(State(), d, chain);
      AddNext(FoundEntry(objectId, d.parentId, d.name, true, false, false, 0, 0x10, d.cluster, chain));
      assert State() == entered;
      var scanned := ScanClusters(objectId, chain);
      if scanned.Err? {
        return Err(scanned.error);
      }
      r := Ok(true);
    }

    method Investigate() returns (r: Result<()>)
      requires Valid()
      modifies this, reader, investigation
      ensures Valid()
      ensures var spec := Run(volume, old(State())); if r.Ok? then spec == Ok(State()) else spec == Err(r.error)
    {
      while queue != []
        invariant Valid() && Run(volume, State()) == Run(volume, old(State()))
        decreases Remaining(State())
      {
        var next := queue[0];
        ghost var before := State();
        queue := queue[1..];
        var walked := WalkDirectory(next);
        if walked.Err? {
          return Err(walked.error);
        }
        StepShrinks(volume, before);
      }
      r := Ok(());
    }
  }

  // ----- what every walk keeps -----

  ghost predicate Numbered(s: WalkState) {
    s.nextId == |s.added| + 1 && forall i | 0 <= i < |s.added| :: s.added[i].objectId == i + 1
  }

  ghost predicate IsFolderId(s: WalkState, id: nat) {
    1 <= id <= |s.added| && s.added[id - 1].isDirectory
  }

  /** The parent is a directory added before, the first entry being its own parent. */
  ghost predicate ParentAt(s: WalkState, i: nat)
    requires i < |s.added|
  {
    IsFolderId(s, s.added[i].parentId) && s.added[i].parentId <= Max(i, 1)
  }

  ghost predicate Queued(s: WalkState, q: Pending) {
    if s.added == [] then s.queue == [q] && q.parentId == 1 else IsFolderId(s, q.parentId)
  }

  ghost predicate Inv(s: WalkState) {
    && Numbered(s) && (forall i: nat | i < |s.added| :: ParentAt(s, i))
    && (forall k | 0 <= k < |s.queue| :: Queued(s, s.queue[k]))
  }

  lemma RegisterKeepsInv(v: Volume, s: WalkState, parentId: nat, p: FoundRecord)
    requires v.Valid() && Inv(s) && IsFolderId(s, parentId)
    ensures Inv(v.Register(s, parentId, p)) && IsFolderId(v.Register(s, parentId, p), parentId)
  {
    var t := v.Register(s, parentId, p);
    forall i: nat | i < |t.added| ensures ParentAt(t, i) {
      if i < |s.added| {
        assert ParentAt(s, i);
      }
    }
    forall k | 0 <= k < |t.queue| ensures Queued(t, t.queue[k]) {
      if k < |s.queue| {
        assert Queued(s, s.queue[k]);
      }
    }
  }

  lemma {:induction false} RegisterAllKeepsInv(v: Volume, s: WalkState, parentId: nat, records: seq<FoundRecord>)
    requires v.Valid() && Inv(s) && IsFolderId(s, parentId)
    ensures Inv(v.RegisterAll(s, parentId, records)) && IsFolderId(v.RegisterAll(s, parentId, records), parentId)
  {
    if records != [] {
      var front := records[..|records| - 1];
      RegisterAllKeepsInv(v, s, parentId, front);
      RegisterKeepsInv(v, v.RegisterAll(s, parentId, front), parentId, records[|records| - 1]);
    }
  }

  lemma CountKeepsInv(s: WalkState, parentId: nat)
    requires Inv(s) && IsFolderId(s, parentId)
    ensures Inv(s.(records := s.records + 1)) && IsFolderId(s.(records := s.records + 1), parentId)
  {
    var t := s.(records := s.records + 1);
    forall i: nat | i < |t.added| ensures ParentAt(t, i) {
      assert ParentAt(s, i);
    }
    forall k | 0 <= k < |t.queue| ensures Queued(t, t.queue[k]) {
      assert Queued(s, s.queue[k]);
    }
  }

  lemma {:induction false} ScanKeepsInv(v: Volume, s: WalkState, parentId: nat, chain: seq<U32>)
    requires v.Valid() && Inv(s) && IsFolderId(s, parentId) && v.Scan(s, parentId, chain).Ok?
    ensures Inv(v.Scan(s, parentId, chain).value)
    decreases |chain|
  {
    if chain != [] {
      var records := v.parse(v.ReadDirectoryCluster(chain[0]).value);
      CountKeepsInv(s, parentId);
      RegisterAllKeepsInv(v, s.(records := s.records + 1), parentId, records);
      ScanKeepsInv(v, v.RegisterAll(s.(records := s.records + 1), parentId, records), parentId, chain[1..]);
    }
  }

  lemma PopKeepsInv(s: WalkState)
    requires Inv(s) && s.queue != []
    ensures Inv(Popped(s))
  {
    var t := Popped(s);
    forall i: nat | i < |t.added| ensures ParentAt(t, i) {
      assert ParentAt(s, i);
    }
    forall k | 0 <= k < |t.queue| ensures Queued(t, t.queue[k]) {
      assert Queued(s, s.queue[k + 1]);
    }
  }

  lemma EnterKeepsInv(v: Volume, s: WalkState, chain: seq<U32>)
    requires Inv(s) && s.queue != []
    ensures var t := v.Entered(Popped(s), s.queue[0], chain); Inv(t) && IsFolderId(t, s.nextId)
  {
    var d := s.queue[0];
    var t := v.Entered(Popped(s), d, chain);
    assert Queued(s, d);
    assert t.added[|s.added|].isDirectory;
    forall i: nat | i < |t.added| ensures ParentAt(t, i) {
      if i < |s.added| {
        assert ParentAt(s, i);
      }
    }
    forall k | 0 <= k < |t.queue| ensures Queued(t, t.queue[k]) {
      assert Queued(s, s.queue[k + 1]);
    }
  }

  lemma StepKeepsInv(v: Volume, s: WalkState)
    requires v.Valid() && Inv(s) && s.queue != [] && v.Walked(Popped(s), s.queue[0]).Ok?
    ensures Inv(v.Walked(Popped(s), s.queue[0]).value)
  {
    var chain := v.DirectoryChain(s.queue[0].cluster).value;
    if chain == [] {
      PopKeepsInv(s);
    } else {
      EnterKeepsInv(v, s, chain);
      ScanKeepsInv(v, v.Entered(Popped(s), s.queue[0], chain), s.nextId, chain);
    }
  }

  /** Every successful walk keeps the invariant to its end. */
  lemma {:induction false} RunKeepsInv(v: Volume, s: WalkState)
    requires v.Valid() && Inv(s) && Run(v, s).Ok?
    ensures Inv(Run(v, s).value) && Run(v, s).value.queue == []
    decreases Remaining(s)
  {
    if s.queue != [] {
      StepShrinks(v, s);
      StepKeepsInv(v, s);
      RunKeepsInv(v, v.Walked(Popped(s), s.queue[0]).value);
    }
  }

  /** A file carries the chain its own record leads to. */
  ghost predicate HasOwnChain(v: Volume, e: FoundEntry)
    requires v.Valid()
  {
    !e.isDirectory && !e.isVolumeLabel ==> e.chain == v.disk.FileChain(e.cluster, e.size)
  }

  ghost predicate AllChained(v: Volume, added: seq<FoundEntry>)
    requires v.Valid()
  {
    forall i | 0 <= i < |added| :: HasOwnChain(v, added[i])
  }

  lemma {:induction false} RegisterAllKeepsChains(v: Volume, s: WalkState, parentId: nat, records: seq<FoundRecord>)
    requires v.Valid() && AllChained(v, s.added)
    ensures AllChained(v, v.RegisterAll(s, parentId, records).added)
  {
    if records != [] {
      RegisterAllKeepsChains(v, s, parentId, records[..|records| - 1]);
    }
  }

  lemma {:induction false} ScanKeepsChains(v: Volume, s: WalkState, parentId: nat, chain: seq<U32>)
    requires v.Valid() && AllChained(v, s.added) && v.Scan(s, parentId, chain).Ok?
    ensures AllChained(v, v.Scan(s, parentId, chain).value.added)
    decreases |chain|
  {
    if chain != [] {
      var records := v.parse(v.ReadDirectoryCluster(chain[0]).value);
      RegisterAllKeepsChains(v, s.(records := s.records + 1), parentId, records);
      ScanKeepsChains(v, v.RegisterAll(s.(records := s.records + 1), parentId, records), parentId, chain[1..]);
    }
  }

  lemma {:induction false} RunKeepsChains(v: Volume, s: WalkState)
    requires v.Valid() && AllChained(v, s.added) && Run(v, s).Ok?
    ensures AllChained(v, Run(v, s).value.added)
    decreases Remaining(s)
  {
    if s.queue != [] {
      var chain := v.DirectoryChain(s.queue[0].cluster).value;
      StepShrinks(v, s);
      if chain != [] {
        ScanKeepsChains(v, v.Entered(Popped(s), s.queue[0], chain), s.nextId, chain);
      }
      RunKeepsChains(v, v.Walked(Popped(s), s.queue[0]).value);
    }
  }

  /** On every volume the walk can read to the end: ids are handed out in increasing order and the parent of every added
      entry was added. Hence the kept entries have increasing ids, one for each (parent, name) pair, and one of them
      lacks its parent exactly when a discarded entry is named as parent. */
  lemma WalkIsConsistent(v: Volume)
    requires v.Valid() && Run(v, Initial(v)).Ok?
    ensures var added := Run(v, Initial(v)).value.added;
      && IncreasingIds(added) && ParentsAdded(added)
      && IncreasingIds(Firsts(added)) && UniqueKeys(Firsts(added)) && Keys(Firsts(added)) == Keys(added)
      && (HasOrphan(Firsts(added)) <==> HasDiscardedParent(added))
  {
    RunKeepsInv(v, Initial(v));
    var s := Run(v, Initial(v)).value;
    forall i: nat | i < |s.added| ensures ParentAdded(s.added, i) {
      assert ParentAt(s, i);
      assert s.added[s.added[i].parentId - 1].objectId == s.added[i].parentId;
    }
    KeptIdsIncrease(s.added);
    OnePerKey(s.added);
    OrphansIffDiscardedParents(s.added);
  }

  /** Every kept file, live or deleted, carries the chain its record leads to. */
  lemma KeptFilesHaveChains(v: Volume, e: FoundEntry)
    requires v.Valid() && Run(v, Initial(v)).Ok? && e in Firsts(Run(v, Initial(v)).value.added)
    ensures HasOwnChain(v, e)
  {
    RunKeepsChains(v, Initial(v));
    KeptAreAdded(Run(v, Initial(v)).value.added, e);
  }
}
