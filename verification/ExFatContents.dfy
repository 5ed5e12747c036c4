/** What an exFAT walk finds, record by record. */
module ExFatContents {
  import opened Machine
  import opened ExFatDirectory
  import opened ExFatWalk
  import opened ExFatHierarchy

  /** The entry of a record that is no directory, under the directory numbered `parentId`. */
  ghost predicate Shows(v: Volume, e: WalkEntry, parentId: nat, p: DirectoryRecord)
    requires v.Valid()
  {
    && e.parentId == parentId && e.name == p.name && e.kind == p.kind && e.attributes == p.attributes
    && match p.kind
       case FileRecord =>
         && e.deleted == p.deleted && e.realSize == p.size && e.cluster == p.cluster
         && e.chain == v.reader.FileChain(v.img, p.cluster, p.size)
         && e.timestamps == Some((p.created, p.modified, p.accessed))
       case VolumeLabel => !e.deleted && e.realSize == 0 && e.cluster == 0 && e.chain == []
       case _ => !e.deleted && e.realSize == 0 && e.cluster == p.cluster && e.chain == []
  }

  /** One of the clusters of the directory can be read and holds the record. */
  ghost predicate InDirectory(v: Volume, chain: seq<U32>, p: DirectoryRecord)
    requires v.Valid()
  {
    exists k: nat :: k < |chain| && InCluster(v, chain[k], p)
  }

  ghost predicate InCluster(v: Volume, cluster: U32, p: DirectoryRecord)
    requires v.Valid()
  {
    var buffer := v.ReadDirectoryCluster(cluster);
    buffer.Ok? && p in Records(buffer.value, 0)
  }

  lemma {:induction false} ContentsAreClusters(v: Volume, chain: seq<U32>, p: DirectoryRecord)
    requires v.Valid() && v.Contents(chain).Ok?
    ensures p in v.Contents(chain).value <==> InDirectory(v, chain, p)
    decreases |chain|
  {
    if chain != [] {
      ContentsAreClusters(v, chain[1..], p);
      if InCluster(v, chain[0], p) {
        assert InDirectory(v, chain, p);
      }
      forall k: nat | k < |chain[1..]| && InCluster(v, chain[1..][k], p) ensures InDirectory(v, chain, p) {
        assert InCluster(v, chain[k + 1], p);
      }
      forall k: nat | 0 < k < |chain| && InCluster(v, chain[k], p) ensures InDirectory(v, chain[1..], p) {
        assert chain[1..][k - 1] == chain[k];
      }
    }
  }

  lemma {:induction false} RecordsAreShown(v: Volume, parentId: nat, records: seq<DirectoryRecord>, id: nat,
                                           p: DirectoryRecord)
    requires v.Valid() && p in records && !p.kind.FolderRecord?
    ensures HasShown(v, v.FileEntries(parentId, records, id), parentId, p)
  {
    var front, last := records[..|records| - 1], records[|records| - 1];
    var files, before := v.FileEntries(parentId, records, id), v.FileEntries(parentId, front, id);
    if p in front {
      RecordsAreShown(v, parentId, front, id, p);
      ShownStays(v, before, files, parentId, p);
    } else {
      assert p == last;
      assert Shows(v, files[|before|], parentId, p);
    }
  }

  lemma {:induction false} EntriesAreShown(v: Volume, parentId: nat, records: seq<DirectoryRecord>, id: nat,
                                           entries: seq<WalkEntry>, k: nat)
    requires v.Valid() && entries == v.FileEntries(parentId, records, id) && k < |entries|
    ensures IsShown(v, entries[k], parentId, records)
  {
    var front, last := records[..|records| - 1], records[|records| - 1];
    var before := v.FileEntries(parentId, front, id);
    if k < |before| {
      EntriesAreShown(v, parentId, front, id, before, k);
      ShownByMore(v, before[k], parentId, front, records);
    } else {
      assert last in records && Shows(v, entries[k], parentId, last);
    }
  }

  lemma ShownByMore(v: Volume, e: WalkEntry, parentId: nat, front: seq<DirectoryRecord>,
                    records: seq<DirectoryRecord>)
    requires v.Valid() && front <= records && IsShown(v, e, parentId, front)
    ensures IsShown(v, e, parentId, records)
  {
    var p :| p in front && !p.kind.FolderRecord? && Shows(v, e, parentId, p);
    assert p in records;
  }

  ghost predicate HasShown(v: Volume, entries: seq<WalkEntry>, parentId: nat, p: DirectoryRecord)
    requires v.Valid()
  {
    exists k: nat :: k < |entries| && Shows(v, entries[k], parentId, p)
  }

  ghost predicate IsShown(v: Volume, e: WalkEntry, parentId: nat, records: seq<DirectoryRecord>)
    requires v.Valid()
  {
    exists p :: p in records && !p.kind.FolderRecord? && Shows(v, e, parentId, p)
  }

  lemma ShownStays(v: Volume, entries: seq<WalkEntry>, more: seq<WalkEntry>, parentId: nat, p: DirectoryRecord)
    requires v.Valid() && HasShown(v, entries, parentId, p) && entries <= more
    ensures HasShown(v, more, parentId, p)
  {
    var k: nat :| k < |entries| && Shows(v, entries[k], parentId, p);
    assert more[k] == entries[k];
  }

  lemma ShownInBlock(v: Volume, entries: seq<WalkEntry>, i: nat, block: seq<WalkEntry>, parentId: nat,
                     p: DirectoryRecord)
    requires v.Valid() && i < |entries| && block <= entries[i + 1..] && HasShown(v, block, parentId, p)
    ensures HasShown(v, entries, parentId, p)
  {
    var k: nat :| k < |block| && Shows(v, block[k], parentId, p);
    assert entries[i + 1..][k] == entries[i + 1 + k];
  }

  ghost predicate IsOwned(v: Volume, s: WalkState, k: nat)
    requires v.Valid() && k < |s.entries|
  {
    var parentId := s.entries[k].parentId;
    && 1 <= parentId <= k && s.entries[parentId - 1].IsDirectory()
    && ComesFrom(v, s.entries[k], parentId, s.entries[parentId - 1].chain)
  }

  /** The entry is that of a record in the directory. */
  ghost predicate ComesFrom(v: Volume, e: WalkEntry, parentId: nat, chain: seq<U32>)
    requires v.Valid()
  {
    exists p :: InDirectory(v, chain, p) && !p.kind.FolderRecord? && Shows(v, e, parentId, p)
  }

  /** The entry of a walked directory. */
  ghost predicate ShowsDirectory(e: WalkEntry) {
    e.kind == FolderRecord && !e.deleted && e.realSize == 0 && e.attributes == 0x10 && e.timestamps == None
  }

  ghost predicate IsRootEntry(v: Volume, e: WalkEntry)
    requires v.Valid()
  {
    && e.objectId == 1 && e.parentId == 1 && e.name == RootLabel && ShowsDirectory(e)
    && e.cluster == v.reader.boot.rootDirectoryCluster
  }

  ghost predicate AllShowDirectories(entries: seq<WalkEntry>) {
    forall i: nat | i < |entries| && entries[i].IsDirectory() :: ShowsDirectory(entries[i])
  }

  lemma {:induction false} FileEntriesAreFiles(v: Volume, parentId: nat, records: seq<DirectoryRecord>, id: nat)
    requires v.Valid()
    ensures forall i: nat | i < |v.FileEntries(parentId, records, id)| ::
      !v.FileEntries(parentId, records, id)[i].IsDirectory()
  {
    if records != [] {
      FileEntriesAreFiles(v, parentId, records[..|records| - 1], id);
    }
  }

  lemma {:induction false} RunShowsDirectories(v: Volume, s: WalkState)
    requires v.Valid() && Inv(v, s) && AllShowDirectories(s.entries) && Run(v, s).Ok?
    ensures AllShowDirectories(Run(v, s).value.entries)
    decreases Remaining(s)
  {
    if s.queue != [] {
      PopShrinks(v, s);
      HeadHasChain(v, s);
      WalkedIsStep(v, s);
      var next := Popped(s).Walked(v, s.queue[0]).value;
      var chain, found :| Step(v, s, next, chain, found);
      StepKeepsInv(v, s, next, chain, found);
      StepShowsDirectories(v, s, next, chain, found);
      RunShowsDirectories(v, next);
    }
  }

  lemma StepShowsDirectories(v: Volume, s: WalkState, t: WalkState, chain: seq<U32>, found: seq<DirectoryRecord>)
    requires v.Valid() && AllShowDirectories(s.entries) && Step(v, s, t, chain, found)
    ensures AllShowDirectories(t.entries)
  {
    FileEntriesAreFiles(v, s.nextId, found, s.nextId + 1);
    ShowDirectoriesAppend(s.entries, DirectoryEntry(s, chain), v.FileEntries(s.nextId, found, s.nextId + 1));
  }

  lemma ShowDirectoriesAppend(entries: seq<WalkEntry>, e: WalkEntry, files: seq<WalkEntry>)
    requires AllShowDirectories(entries) && ShowsDirectory(e)
    requires forall i: nat | i < |files| :: !files[i].IsDirectory()
    ensures AllShowDirectories(entries + [e] + files)
  {}

  /** Every record in a cluster of a walked directory has its entry there. */
  ghost predicate RecordsListed(v: Volume, s: WalkState)
    requires v.Valid()
  {
    forall i: nat, p | IsDirectoryAt(s, i) && InDirectory(v, s.entries[i].chain, p) && !p.kind.FolderRecord? ::
      HasShown(v, s.entries, i + 1, p)
  }

  /** Every directory record in a cluster of a walked directory is walked itself. */
  ghost predicate SubdirectoriesWalked(v: Volume, s: WalkState)
    requires v.Valid()
  {
    forall i: nat, p | IsDirectoryAt(s, i) && InDirectory(v, s.entries[i].chain, p) && p.kind.FolderRecord?
                       && p.cluster >= 2 ::
      exists d :: WalkedAs(s, d, p.cluster)
  }

  ghost predicate AllOwned(v: Volume, s: WalkState)
    requires v.Valid()
  {
    forall k: nat | k < |s.entries| && !s.entries[k].IsDirectory() :: IsOwned(v, s, k)
  }

  lemma EverythingIsListed(v: Volume, s: WalkState)
    requires v.Valid() && Explored(v, s) && forall c | Visited(s, c) :: exists d :: WalkedAs(s, d, c)
    ensures RecordsListed(v, s) && SubdirectoriesWalked(v, s)
  {
    forall i: nat, p | IsDirectoryAt(s, i) && InDirectory(v, s.entries[i].chain, p)
      ensures p.kind.FolderRecord? || HasShown(v, s.entries, i + 1, p)
      ensures p.kind.FolderRecord? && p.cluster >= 2 ==> exists d :: WalkedAs(s, d, p.cluster)
    {
      assert ContentsAt(v, s, i) && SubdirectoriesAt(v, s, i);
      DirectoryIsListed(v, s, i, p);
    }
  }

  lemma EverythingIsOwned(v: Volume, s: WalkState)
    requires v.Valid() && Explored(v, s) && Owned(v, s) && Parented(s)
    ensures AllOwned(v, s)
  {
    forall k: nat | k < |s.entries| && !s.entries[k].IsDirectory() ensures IsOwned(v, s, k) == true {
      var i := ParentOf(s, k);
      assert OwnedAt(v, s, k);
      assert ContentsAt(v, s, i) && SubdirectoriesAt(v, s, i);
      EntryIsOwned(v, s, k, i);
    }
  }

  lemma ParentOf(s: WalkState, k: nat) returns (i: nat)
    requires Parented(s) && k < |s.entries| && !s.entries[k].IsDirectory()
    ensures i < k && s.entries[k].parentId == i + 1 && s.entries[i].IsDirectory()
  {
    assert ParentAt(s, k);
    i := s.entries[k].parentId - 1;
  }

  /** On every volume the walk can read to the end: every record in a cluster of a walked directory has its entry there
      with its own fields, live or deleted, or, being a directory, is walked itself; and every entry that is no
      directory goes back to such a record. The first entry is the root. */
  lemma WalkListsEverything(v: Volume)
    requires v.Valid() && Run(v, Initial(v)).Ok?
    ensures var s := Run(v, Initial(v)).value;
      && RecordsListed(v, s) && SubdirectoriesWalked(v, s) && AllOwned(v, s)
      && AllShowDirectories(s.entries) && s.entries != [] && IsRootEntry(v, s.entries[0])
  {
    WalkIsExact(v);
    var s := Run(v, Initial(v)).value;
    EverythingIsListed(v, s);
    EverythingIsOwned(v, s);
    InitialInv(v);
    RunShowsDirectories(v, Initial(v));
    FirstIsRoot(v, s);
  }

  lemma FirstIsRoot(v: Volume, s: WalkState)
    requires v.Valid() && Run(v, Initial(v)) == Ok(s)
    ensures s.entries != [] && IsRootEntry(v, s.entries[0])
  {
    var first := Popped(Initial(v)).Walked(v, Initial(v).queue[0]).value;
    InitialInv(v);
    HeadHasChain(v, Initial(v));
    PopShrinks(v, Initial(v));
    assert IsRootEntry(v, first.entries[0]);
    RunKeepsEntries(v, first);
  }

  lemma {:induction false} RunKeepsEntries(v: Volume, s: WalkState)
    requires v.Valid() && Run(v, s).Ok?
    ensures s.entries <= Run(v, s).value.entries
    decreases Remaining(s)
  {
    if s.queue != [] {
      PopShrinks(v, s);
      RunKeepsEntries(v, Popped(s).Walked(v, s.queue[0]).value);
    }
  }

  lemma DirectoryIsListed(v: Volume, s: WalkState, i: nat, p: DirectoryRecord)
    requires v.Valid() && IsDirectoryAt(s, i) && InDirectory(v, s.entries[i].chain, p)
    requires ContentsAt(v, s, i) && SubdirectoriesAt(v, s, i)
    requires forall c | Visited(s, c) :: exists d :: WalkedAs(s, d, c)
    ensures p.kind.FolderRecord? || HasShown(v, s.entries, i + 1, p)
    ensures p.kind.FolderRecord? && p.cluster >= 2 ==> exists d :: WalkedAs(s, d, p.cluster)
  {
    var records := v.Contents(s.entries[i].chain).value;
    ContentsAreClusters(v, s.entries[i].chain, p);
    if p.kind.FolderRecord? {
      if p.cluster >= 2 {
        assert Visited(s, p.cluster);
      }
    } else {
      RecordIsListed(v, s.entries, i, records, p);
    }
  }

  lemma RecordIsListed(v: Volume, entries: seq<WalkEntry>, i: nat, records: seq<DirectoryRecord>, p: DirectoryRecord)
    requires v.Valid() && i < |entries| && p in records && !p.kind.FolderRecord?
    requires v.FileEntries(i + 1, records, i + 2) <= entries[i + 1..]
    ensures HasShown(v, entries, i + 1, p)
  {
    RecordsAreShown(v, i + 1, records, i + 2, p);
    ShownInBlock(v, entries, i, v.FileEntries(i + 1, records, i + 2), i + 1, p);
  }

  lemma BlockEndsBehind(v: Volume, p: nat, chain: seq<U32>, records: seq<DirectoryRecord>)
    requires v.Valid() && v.Contents(chain) == Ok(records)
    ensures BlockEnd(v, p, chain) == p + |v.FileEntries(p, records, p + 1)|
  {}

  lemma EntryIsOwned(v: Volume, s: WalkState, k: nat, i: nat)
    requires v.Valid() && i < k < |s.entries| && s.entries[k].parentId == i + 1
    requires s.entries[i].IsDirectory() && OwnedAt(v, s, k) && ContentsAt(v, s, i)
    ensures IsOwned(v, s, k)
  {
    var chain := s.entries[i].chain;
    var records := v.Contents(chain).value;
    BlockEndsBehind(v, i + 1, chain, records);
    BlockComesFrom(v, s.entries, i + 1, chain, records, v.FileEntries(i + 1, records, i + 2), k);
  }

  lemma BlockComesFrom(v: Volume, entries: seq<WalkEntry>, parentId: nat, chain: seq<U32>,
                       records: seq<DirectoryRecord>, block: seq<WalkEntry>, k: nat)
    requires v.Valid() && v.Contents(chain) == Ok(records) && block == v.FileEntries(parentId, records, parentId + 1)
    requires parentId <= k < |entries| && block <= entries[parentId..] && k - parentId < |block|
    ensures ComesFrom(v, entries[k], parentId, chain) == true
  {
    RecordsAreIn(v, chain, records);
    EntryInBlock(v, entries, block, parentId, records, k);
    ShownComesFrom(v, entries[k], parentId, chain, records);
  }

  lemma EntryInBlock(v: Volume, entries: seq<WalkEntry>, block: seq<WalkEntry>, parentId: nat,
                     records: seq<DirectoryRecord>, k: nat)
    requires v.Valid() && block == v.FileEntries(parentId, records, parentId + 1)
    requires parentId <= k < |entries| && block <= entries[parentId..] && k - parentId < |block|
    ensures IsShown(v, entries[k], parentId, records)
  {
    EntriesAreShown(v, parentId, records, parentId + 1, block, k - parentId);
    assert block[k - parentId] == entries[k];
  }

  ghost predicate AreIn(v: Volume, chain: seq<U32>, records: seq<DirectoryRecord>)
    requires v.Valid()
  {
    forall p | p in records :: InDirectory(v, chain, p)
  }

  lemma RecordsAreIn(v: Volume, chain: seq<U32>, records: seq<DirectoryRecord>)
    requires v.Valid() && v.Contents(chain) == Ok(records)
    ensures AreIn(v, chain, records)
  {
    forall p | p in records ensures InDirectory(v, chain, p) {
      ContentsAreClusters(v, chain, p);
    }
  }

  lemma ShownComesFrom(v: Volume, e: WalkEntry, parentId: nat, chain: seq<U32>, records: seq<DirectoryRecord>)
    requires v.Valid() && AreIn(v, chain, records) && IsShown(v, e, parentId, records)
    ensures ComesFrom(v, e, parentId, chain)
  {
    var p :| p in records && !p.kind.FolderRecord? && Shows(v, e, parentId, p);
    assert InDirectory(v, chain, p);
  }
}
