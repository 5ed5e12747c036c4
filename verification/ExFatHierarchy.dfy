/** What every exFAT walk keeps: numbering, parents, breadth-first order and exact directory contents. */
module ExFatHierarchy {
  import opened Machine
  import opened ExFatDirectory
  import opened ExFatWalk

  // ----- the invariant -----

  /** Object ids number the entries from 1. */
  ghost predicate Numbered(s: WalkState) {
    s.nextId == |s.entries| + 1 && forall i | 0 <= i < |s.entries| :: s.entries[i].objectId == i + 1
  }

  ghost predicate IsFolderId(s: WalkState, id: nat) {
    1 <= id <= |s.entries| && s.entries[id - 1].IsDirectory()
  }

  /** The first entry is the root, its own parent; any other entry has a recorded directory before it as parent. */
  ghost predicate ParentAt(s: WalkState, i: nat)
    requires i < |s.entries|
  {
    IsFolderId(s, s.entries[i].parentId) && s.entries[i].parentId <= Max(i, 1)
  }

  ghost predicate Parented(s: WalkState) {
    forall i: nat | i < |s.entries| :: ParentAt(s, i)
  }

  /** `records` holds a directory record with this start cluster and name. */
  ghost predicate Lists(records: Result<seq<DirectoryRecord>>, cluster: U32, name: RecordName) {
    records.Ok? && exists p :: p in records.value && p.kind == FolderRecord && p.cluster == cluster && p.name == name
  }

  /** Where a directory was found: the root by the boot sector, any other in the contents of its parent. */
  ghost predicate FoundAt(v: Volume, s: WalkState, d: Pending)
    requires v.Valid()
  {
    if d.cluster == v.reader.boot.rootDirectoryCluster then d == Pending(d.cluster, 1, RootLabel)
    else IsFolderId(s, d.parentId) && Lists(v.Contents(s.entries[d.parentId - 1].chain), d.cluster, d.name)
  }

  function Start(e: WalkEntry): Pending {
    Pending(e.cluster, e.parentId, e.name)
  }

  /** All directories in order of discovery: those walked, then those waiting. */
  ghost function Walked(entries: seq<WalkEntry>): seq<Pending> {
    if entries == [] then []
    else
      var e := entries[|entries| - 1];
      Walked(entries[..|entries| - 1]) + if e.IsDirectory() then [Start(e)] else []
  }

  ghost function Discovered(s: WalkState): seq<Pending> {
    Walked(s.entries) + s.queue
  }

  /** A later directory starts elsewhere and lies in the same or a later parent. */
  ghost predicate Precedes(a: Pending, b: Pending) {
    a.cluster != b.cluster && a.parentId <= b.parentId
  }

  ghost predicate BreadthFirst(dirs: seq<Pending>) {
    forall i, j | 0 <= i < j < |dirs| :: Precedes(dirs[i], dirs[j])
  }

  ghost predicate AllFound(v: Volume, s: WalkState)
    requires v.Valid()
  {
    forall i | 0 <= i < |Discovered(s)| ::
      FoundAt(v, s, Discovered(s)[i]) && Discovered(s)[i].cluster >= 2
        && Discovered(s)[i].parentId <= Max(|s.entries|, 1)
  }

  /** What lies behind directory i: its own chain, and right after it exactly the entries of the records that are not
      directories. */
  ghost predicate ContentsAt(v: Volume, s: WalkState, i: nat)
    requires v.Valid() && i < |s.entries|
  {
    var e := s.entries[i];
    && v.ChainOf(e.cluster, v.reader.boot.clusterCount) == Ok(e.chain)
    && v.Contents(e.chain).Ok? && v.FileEntries(i + 1, v.Contents(e.chain).value, i + 2) <= s.entries[i + 1..]
  }

  /** Every subdirectory that is listed was discovered. */
  ghost predicate SubdirectoriesAt(v: Volume, s: WalkState, i: nat)
    requires v.Valid() && i < |s.entries|
  {
    v.Contents(s.entries[i].chain).Ok?
    && forall p | p in v.Contents(s.entries[i].chain).value && p.kind == FolderRecord && p.cluster >= 2 ::
      p.cluster in s.visited
  }

  ghost predicate Explored(v: Volume, s: WalkState)
    requires v.Valid()
  {
    forall i: nat | i < |s.entries| && s.entries[i].IsDirectory() :: ContentsAt(v, s, i) && SubdirectoriesAt(v, s, i)
  }

  /** An entry that is no directory belongs to the block right after its parent. */
  ghost predicate OwnedAt(v: Volume, s: WalkState, k: nat)
    requires v.Valid() && k < |s.entries|
  {
    var p := s.entries[k].parentId;
    1 <= p <= k && k < BlockEnd(v, p, s.entries[p - 1].chain)
  }

  /** Where the block of the directory numbered p ends. */
  ghost function BlockEnd(v: Volume, p: nat, chain: seq<U32>): nat
    requires v.Valid()
  {
    if v.Contents(chain).Err? then p else p + |v.FileEntries(p, v.Contents(chain).value, p + 1)|
  }

  ghost predicate Owned(v: Volume, s: WalkState)
    requires v.Valid()
  {
    forall k: nat | k < |s.entries| && !s.entries[k].IsDirectory() :: OwnedAt(v, s, k)
  }

  /** A file carries the chain its own record leads to. */
  ghost predicate HasOwnChain(v: Volume, w: WalkEntry)
    requires v.Valid()
  {
    w.kind == FileRecord ==> w.chain == v.reader.FileChain(v.img, w.cluster, w.realSize)
  }

  ghost predicate AllChained(v: Volume, entries: seq<WalkEntry>)
    requires v.Valid()
  {
    forall i | 0 <= i < |entries| :: HasOwnChain(v, entries[i])
  }

  ghost predicate Inv(v: Volume, s: WalkState)
    requires v.Valid()
  {
    && Numbered(s) && Parented(s)
    && Discovered(s) != [] && Discovered(s)[0] == Pending(v.reader.boot.rootDirectoryCluster, 1, RootLabel)
    && BreadthFirst(Discovered(s)) && AllFound(v, s) && s.visited == Clusters(Discovered(s))
    && Explored(v, s) && Owned(v, s) && AllChained(v, s.entries)
  }

  // ----- one step -----

  /** `t` is `s` after walking the directory at the head of the queue. */
  ghost predicate Step(v: Volume, s: WalkState, t: WalkState, chain: seq<U32>, found: seq<DirectoryRecord>)
    requires v.Valid()
  {
    && s.queue != [] && v.ChainOf(s.queue[0].cluster, v.reader.boot.clusterCount) == Ok(chain)
    && v.Contents(chain) == Ok(found)
    && Moves(s, t, chain, v.FileEntries(s.nextId, found, s.nextId + 1), NewDirectories(s.nextId, found, s.visited))
  }

  /** The directory goes behind the entries, what was found in it behind that; its place in the queue makes room for the
      directories found in it. */
  ghost predicate Moves(s: WalkState, t: WalkState, chain: seq<U32>, files: seq<WalkEntry>, dirs: seq<Pending>)
    requires s.queue != []
  {
    Holds(t, s.entries + [DirectoryEntry(s, chain)] + files, s.nextId + 1 + |files|, s.visited + Clusters(dirs),
          s.queue[1..] + dirs)
  }

  ghost predicate Holds(s: WalkState, entries: seq<WalkEntry>, nextId: nat, visited: set<U32>, queue: seq<Pending>) {
    s.entries == entries && s.nextId == nextId && s.visited == visited && s.queue == queue
  }

  ghost function DirectoryEntry(s: WalkState, chain: seq<U32>): WalkEntry
    requires s.queue != []
  {
    var d := s.queue[0];
    WalkEntry(s.nextId, d.parentId, d.name, FolderRecord, false, 0, 0x10, d.cluster, chain, None)
  }

  ghost predicate AreNumbered(files: seq<WalkEntry>, parentId: nat, id: nat) {
    forall i | 0 <= i < |files| ::
      files[i].objectId == id + i && files[i].parentId == parentId && !files[i].IsDirectory()
  }

  lemma {:induction false} FileEntriesNumbered(v: Volume, parentId: nat, found: seq<DirectoryRecord>, id: nat)
    requires v.Valid()
    ensures AreNumbered(v.FileEntries(parentId, found, id), parentId, id)
  {
    if found != [] {
      FileEntriesNumbered(v, parentId, found[..|found| - 1], id);
      assert AreNumbered(v.FileEntries(parentId, found[..|found| - 1], id), parentId, id);
    }
  }

  lemma StepNumbers(v: Volume, s: WalkState, t: WalkState, chain: seq<U32>, found: seq<DirectoryRecord>)
    requires v.Valid() && Numbered(s) && Step(v, s, t, chain, found)
    ensures Numbered(t)
  {
    var files, dirs := v.FileEntries(s.nextId, found, s.nextId + 1), NewDirectories(s.nextId, found, s.visited);
    FileEntriesNumbered(v, s.nextId, found, s.nextId + 1);
    MoveNumbers(s, t, chain, files, dirs);
  }

  lemma MoveNumbers(s: WalkState, t: WalkState, chain: seq<U32>, files: seq<WalkEntry>, dirs: seq<Pending>)
    requires Numbered(s) && s.queue != [] && Moves(s, t, chain, files, dirs) == true
    requires AreNumbered(files, s.nextId, s.nextId + 1) == true
    ensures Numbered(t)
  {}

  lemma StepParents(v: Volume, s: WalkState, t: WalkState, chain: seq<U32>, found: seq<DirectoryRecord>)
    requires v.Valid() && Numbered(s) && Parented(s) && Step(v, s, t, chain, found)
    requires if s.entries == [] then s.queue[0].parentId == 1 else IsFolderId(s, s.queue[0].parentId)
    ensures Parented(t)
  {
    var files, dirs := v.FileEntries(s.nextId, found, s.nextId + 1), NewDirectories(s.nextId, found, s.visited);
    FileEntriesNumbered(v, s.nextId, found, s.nextId + 1);
    MoveParents(s, t, chain, files, dirs);
  }

  lemma MoveParents(s: WalkState, t: WalkState, chain: seq<U32>, files: seq<WalkEntry>, dirs: seq<Pending>)
    requires Numbered(s) && Parented(s) && s.queue != [] && Moves(s, t, chain, files, dirs) == true
    requires AreNumbered(files, s.nextId, s.nextId + 1) == true
    requires if s.entries == [] then s.queue[0].parentId == 1 else IsFolderId(s, s.queue[0].parentId)
    ensures Parented(t)
  {
    forall i: nat | i < |t.entries| ensures ParentAt(t, i) {
      if i < |s.entries| {
        assert ParentAt(s, i);
        SameEntry(s.entries, t.entries, i);
        SameEntry(s.entries, t.entries, s.entries[i].parentId - 1);
      } else {
        assert t.entries[|s.entries|] == DirectoryEntry(s, chain);
      }
    }
  }

  lemma {:induction false} WalkedAppend(entries: seq<WalkEntry>, files: seq<WalkEntry>)
    requires forall i | 0 <= i < |files| :: !files[i].IsDirectory()
    ensures Walked(entries + files) == Walked(entries)
  {
    if files == [] {
      assert entries + files == entries;
    } else {
      var n := |files| - 1;
      WalkedAppend(entries, files[..n]);
      assert (entries + files)[..|entries| + n] == entries + files[..n];
    }
  }

  lemma WalkedDirectory(entries: seq<WalkEntry>, d: WalkEntry)
    requires d.IsDirectory()
    ensures Walked(entries + [d]) == Walked(entries) + [Start(d)]
  {
    assert (entries + [d])[..|entries|] == entries;
  }

  lemma HeadMoves<T>(a: seq<T>, b: seq<T>, c: seq<T>)
    requires b != []
    ensures (a + [b[0]]) + (b[1..] + c) == (a + b) + c && (a + b)[|a|] == b[0]
  {}

  lemma StepDiscovers(v: Volume, s: WalkState, t: WalkState, chain: seq<U32>, found: seq<DirectoryRecord>)
    requires v.Valid() && Step(v, s, t, chain, found)
    ensures Discovered(t) == Discovered(s) + NewDirectories(s.nextId, found, s.visited)
  {
    var d, files := DirectoryEntry(s, chain), v.FileEntries(s.nextId, found, s.nextId + 1);
    FileEntriesNumbered(v, s.nextId, found, s.nextId + 1);
    WalkedAppend(s.entries + [d], files);
    WalkedDirectory(s.entries, d);
    HeadMoves(Walked(s.entries), s.queue, NewDirectories(s.nextId, found, s.visited));
  }

  lemma ClustersOfBoth(a: seq<Pending>, b: seq<Pending>)
    ensures Clusters(a + b) == Clusters(a) + Clusters(b)
  {
    forall c | c in Clusters(a) + Clusters(b) ensures c in Clusters(a + b) {
      var q :| q in a + b && q.cluster == c;
    }
  }

  lemma StepOrder(v: Volume, s: WalkState, t: WalkState, chain: seq<U32>, found: seq<DirectoryRecord>)
    requires v.Valid() && Numbered(s) && Step(v, s, t, chain, found)
    requires BreadthFirst(Discovered(s)) && AllFound(v, s) && s.visited == Clusters(Discovered(s))
    ensures BreadthFirst(Discovered(t)) && t.visited == Clusters(Discovered(t))
  {
    var dirs := NewDirectories(s.nextId, found, s.visited);
    StepDiscovers(v, s, t, chain, found);
    NewDirectoriesAreNew(s.nextId, found, s.visited);
    ClustersOfBoth(Discovered(s), dirs);
    var old_, all := Discovered(s), Discovered(t);
    forall i, j | 0 <= i < j < |all| ensures Precedes(all[i], all[j]) {
      if j < |old_| {
        assert Precedes(old_[i], old_[j]);
      } else if i < |old_| {
        assert old_[i] in old_ && dirs[j - |old_|] in dirs;
        assert old_[i].cluster in s.visited && dirs[j - |old_|].cluster in Clusters(dirs);
      } else {
        assert dirs[i - |old_|].cluster != dirs[j - |old_|].cluster;
      }
    }
  }

  /** Each new directory comes from a record. */
  lemma {:induction false} NewDirectoriesAreListed(parentId: nat, found: seq<DirectoryRecord>, visited: set<U32>)
    ensures forall q | q in NewDirectories(parentId, found, visited) :: Lists(Ok(found), q.cluster, q.name)
  {
    if found != [] {
      var front, p := found[..|found| - 1], found[|found| - 1];
      NewDirectoriesAreListed(parentId, front, visited);
      forall q | q in NewDirectories(parentId, found, visited) ensures Lists(Ok(found), q.cluster, q.name) {
        if q in NewDirectories(parentId, front, visited) {
          assert Lists(Ok(front), q.cluster, q.name);
        } else {
          assert p in found;
        }
      }
    }
  }

  /** Each listed directory with a usable start cluster is known afterwards. */
  lemma {:induction false} ListedAreVisited(parentId: nat, found: seq<DirectoryRecord>, visited: set<U32>)
    ensures forall p | p in found && p.kind == FolderRecord && p.cluster >= 2 ::
      p.cluster in visited + Clusters(NewDirectories(parentId, found, visited))
  {
    if found != [] {
      var front, last := found[..|found| - 1], found[|found| - 1];
      var dirs := NewDirectories(parentId, front, visited);
      ListedAreVisited(parentId, front, visited);
      ClustersAppend(dirs, Pending(last.cluster, parentId, last.name));
      assert found == front + [last];
    }
  }

  lemma StepFinds(v: Volume, s: WalkState, t: WalkState, chain: seq<U32>, found: seq<DirectoryRecord>)
    requires v.Valid() && Numbered(s) && AllFound(v, s) && Step(v, s, t, chain, found)
    requires v.reader.boot.rootDirectoryCluster in s.visited
    ensures AllFound(v, t)
  {
    var dirs := NewDirectories(s.nextId, found, s.visited);
    StepDiscovers(v, s, t, chain, found);
    NewDirectoriesAreListed(s.nextId, found, s.visited);
    NewDirectoriesAreNew(s.nextId, found, s.visited);
    var earlier, all := Discovered(s), Discovered(t);
    forall i | 0 <= i < |all|
      ensures FoundAt(v, t, all[i]) && all[i].cluster >= 2 && all[i].parentId <= Max(|t.entries|, 1) {
      if i < |earlier| {
        assert FoundAt(v, s, earlier[i]);
      } else {
        var q := dirs[i - |earlier|];
        assert q in dirs && q.cluster in Clusters(dirs);
        assert t.entries[s.nextId - 1] == DirectoryEntry(s, chain);
      }
    }
  }

  lemma StepExplores(v: Volume, s: WalkState, t: WalkState, chain: seq<U32>, found: seq<DirectoryRecord>)
    requires v.Valid() && Numbered(s) && Explored(v, s) && Step(v, s, t, chain, found)
    ensures Explored(v, t)
  {
    FileEntriesNumbered(v, s.nextId, found, s.nextId + 1);
    forall i: nat | i < |t.entries| && t.entries[i].IsDirectory()
      ensures ContentsAt(v, t, i) && SubdirectoriesAt(v, t, i) {
      if i < |s.entries| {
        StillExplored(v, s, t, i);
      } else {
        assert i == |s.entries|;
        NewlyExplored(v, s, t, chain, found);
      }
    }
  }

  lemma StillExplored(v: Volume, s: WalkState, t: WalkState, i: nat)
    requires v.Valid() && s.entries <= t.entries && s.visited <= t.visited
    requires i < |s.entries| && ContentsAt(v, s, i) && SubdirectoriesAt(v, s, i)
    ensures ContentsAt(v, t, i) && SubdirectoriesAt(v, t, i)
  {
    PrefixOfRest(s.entries, t.entries, i + 1, v.FileEntries(i + 1, v.Contents(s.entries[i].chain).value, i + 2));
  }

  lemma NewlyExplored(v: Volume, s: WalkState, t: WalkState, chain: seq<U32>, found: seq<DirectoryRecord>)
    requires v.Valid() && Numbered(s) && Step(v, s, t, chain, found)
    ensures ContentsAt(v, t, |s.entries|) && SubdirectoriesAt(v, t, |s.entries|)
  {
    ListedAreVisited(s.nextId, found, s.visited);
    assert t.entries[|s.entries| + 1..] == v.FileEntries(s.nextId, found, s.nextId + 1);
  }

  lemma PrefixOfRest<T>(a: seq<T>, b: seq<T>, lo: nat, block: seq<T>)
    requires lo <= |a| && a <= b && block <= a[lo..]
    ensures block <= b[lo..]
  {}

  lemma StepOwns(v: Volume, s: WalkState, t: WalkState, chain: seq<U32>, found: seq<DirectoryRecord>)
    requires v.Valid() && Numbered(s) && Owned(v, s) && Step(v, s, t, chain, found)
    ensures Owned(v, t)
  {
    forall k: nat | k < |t.entries| && !t.entries[k].IsDirectory() ensures OwnedAt(v, t, k) {
      if k < |s.entries| {
        assert OwnedAt(v, s, k);
        SameEntry(s.entries, t.entries, k);
        SameEntry(s.entries, t.entries, s.entries[k].parentId - 1);
        StillOwned(v, s, t, k);
      } else {
        assert t.entries[|s.entries|] == DirectoryEntry(s, chain);
        NewlyOwned(v, s, t, chain, found, k);
      }
    }
  }

  lemma SameEntry(a: seq<WalkEntry>, b: seq<WalkEntry>, i: nat)
    requires a <= b && i < |a|
    ensures b[i] == a[i]
  {}

  lemma StillOwned(v: Volume, s: WalkState, t: WalkState, k: nat)
    requires v.Valid() && k < |s.entries| <= |t.entries| && 1 <= s.entries[k].parentId <= k
    requires t.entries[k].parentId == s.entries[k].parentId
    requires t.entries[s.entries[k].parentId - 1].chain == s.entries[s.entries[k].parentId - 1].chain
    ensures OwnedAt(v, t, k) == OwnedAt(v, s, k)
  {}

  lemma NewlyOwned(v: Volume, s: WalkState, t: WalkState, chain: seq<U32>, found: seq<DirectoryRecord>, k: nat)
    requires v.Valid() && Numbered(s) && Step(v, s, t, chain, found) && s.nextId <= k < |t.entries|
    ensures OwnedAt(v, t, k)
  {
    FileEntriesNumbered(v, s.nextId, found, s.nextId + 1);
    assert t.entries[k] == v.FileEntries(s.nextId, found, s.nextId + 1)[k - s.nextId];
  }

  lemma {:induction false} FileEntriesAreChained(v: Volume, parentId: nat, found: seq<DirectoryRecord>, id: nat)
    requires v.Valid()
    ensures AllChained(v, v.FileEntries(parentId, found, id))
  {
    if found != [] {
      FileEntriesAreChained(v, parentId, found[..|found| - 1], id);
    }
  }

  lemma ChainedAppend(v: Volume, a: seq<WalkEntry>, b: seq<WalkEntry>)
    requires v.Valid() && AllChained(v, a) && AllChained(v, b)
    ensures AllChained(v, a + b)
  {}

  lemma StepChains(v: Volume, s: WalkState, t: WalkState, chain: seq<U32>, found: seq<DirectoryRecord>)
    requires v.Valid() && AllChained(v, s.entries) && Step(v, s, t, chain, found)
    ensures AllChained(v, t.entries)
  {
    var files, dirs := v.FileEntries(s.nextId, found, s.nextId + 1), NewDirectories(s.nextId, found, s.visited);
    FileEntriesAreChained(v, s.nextId, found, s.nextId + 1);
    MoveChains(v, s, t, chain, files, dirs);
  }

  lemma MoveChains(v: Volume, s: WalkState, t: WalkState, chain: seq<U32>, files: seq<WalkEntry>, dirs: seq<Pending>)
    requires v.Valid() && AllChained(v, s.entries) && s.queue != [] && Moves(s, t, chain, files, dirs) == true
    requires AllChained(v, files) == true
    ensures AllChained(v, t.entries)
  {
    ChainedAppend(v, s.entries, [DirectoryEntry(s, chain)]);
    ChainedAppend(v, s.entries + [DirectoryEntry(s, chain)], files);
  }

  lemma InitialInv(v: Volume)
    requires v.Valid()
    ensures Inv(v, Initial(v))
  {
    var root := Pending(v.reader.boot.rootDirectoryCluster, 1, RootLabel);
    assert Discovered(Initial(v)) == [root];
    ClustersAppend([], root);
    assert [] + [root] == [root] && Clusters([]) == {};
  }

  lemma StepKeepsInv(v: Volume, s: WalkState, t: WalkState, chain: seq<U32>, found: seq<DirectoryRecord>)
    requires v.Valid() && Inv(v, s) && Step(v, s, t, chain, found)
    ensures Inv(v, t)
  {
    HeadIsPlaced(v, s);
    assert Discovered(s)[0] in Discovered(s);
    StepNumbers(v, s, t, chain, found);
    StepParents(v, s, t, chain, found);
    StepDiscovers(v, s, t, chain, found);
    StepOrder(v, s, t, chain, found);
    StepFinds(v, s, t, chain, found);
    StepExplores(v, s, t, chain, found);
    StepOwns(v, s, t, chain, found);
    StepChains(v, s, t, chain, found);
  }

  lemma {:induction false} WalkedOfEntry(entries: seq<WalkEntry>, i: nat)
    requires i < |entries| && entries[i].IsDirectory()
    ensures Start(entries[i]) in Walked(entries)
  {
    if i < |entries| - 1 {
      WalkedOfEntry(entries[..|entries| - 1], i);
    }
  }

  /** The head of the queue has a recorded parent, unless it is the root at the very beginning. */
  lemma HeadIsPlaced(v: Volume, s: WalkState)
    requires v.Valid() && Inv(v, s) && s.queue != []
    ensures if s.entries == [] then s.queue[0].parentId == 1 else IsFolderId(s, s.queue[0].parentId)
  {
    var n := |Walked(s.entries)|;
    assert Discovered(s)[n] == s.queue[0];
    assert FoundAt(v, s, Discovered(s)[n]);
    if s.entries == [] {
      assert n == 0;
    } else {
      assert ParentAt(s, 0);
      WalkedOfEntry(s.entries, 0);
      assert n > 0;
      assert Precedes(Discovered(s)[0], Discovered(s)[n]);
    }
  }

  lemma HeadHasChain(v: Volume, s: WalkState)
    requires v.Valid() && Inv(v, s) && s.queue != []
    ensures v.ChainOf(s.queue[0].cluster, v.reader.boot.clusterCount) != Ok([])
  {
    HeadIsReal(v, s);
    RealStartHasChain(v, s.queue[0].cluster);
  }

  lemma HeadIsReal(v: Volume, s: WalkState)
    requires v.Valid() && Inv(v, s) && s.queue != []
    ensures s.queue[0].cluster >= 2
  {
    HeadMoves(Walked(s.entries), s.queue, []);
  }

  lemma RealStartHasChain(v: Volume, start: U32)
    requires v.Valid() && start >= 2
    ensures v.ChainOf(start, v.reader.boot.clusterCount) != Ok([])
  {}

  lemma WalkedIsStep(v: Volume, s: WalkState)
    requires v.Valid() && s.queue != [] && v.ChainOf(s.queue[0].cluster, v.reader.boot.clusterCount) != Ok([])
    requires Popped(s).Walked(v, s.queue[0]).Ok?
    ensures exists chain, found :: Step(v, s, Popped(s).Walked(v, s.queue[0]).value, chain, found)
  {
    var chain := v.ChainOf(s.queue[0].cluster, v.reader.boot.clusterCount).value;
    var found, e, t := v.Contents(chain).value, Popped(s).Entered(s.queue[0], chain),
                       Popped(s).Walked(v, s.queue[0]).value;
    WalkedIsScanned(Popped(s), v, s.queue[0], chain);
    EnteredFields(s, chain);
    ScannedFields(v, e, s.nextId, s.nextId + 1, s.visited, t, chain, found);
    BothHold(s, e, t, chain, v.FileEntries(s.nextId, found, s.nextId + 1),
             NewDirectories(s.nextId, found, s.visited));
    MovesAreStep(v, s, t, chain, found);
  }

  lemma MovesAreStep(v: Volume, s: WalkState, t: WalkState, chain: seq<U32>, found: seq<DirectoryRecord>)
    requires v.Valid() && s.queue != [] && v.ChainOf(s.queue[0].cluster, v.reader.boot.clusterCount) == Ok(chain)
    requires v.Contents(chain) == Ok(found)
    requires Moves(s, t, chain, v.FileEntries(s.nextId, found, s.nextId + 1),
                   NewDirectories(s.nextId, found, s.visited)) == true
    ensures Step(v, s, t, chain, found) == true
  {}

  lemma EnteredFields(s: WalkState, chain: seq<U32>)
    requires s.queue != []
    ensures IsEntered(s, Popped(s).Entered(s.queue[0], chain), chain) == true
  {}

  ghost predicate IsEntered(s: WalkState, e: WalkState, chain: seq<U32>)
    requires s.queue != []
  {
    Holds(e, s.entries + [DirectoryEntry(s, chain)], s.nextId + 1, s.visited, s.queue[1..])
  }

  lemma ScannedFields(v: Volume, e: WalkState, parentId: nat, id: nat, visited: set<U32>, t: WalkState,
                      chain: seq<U32>, found: seq<DirectoryRecord>)
    requires v.Valid() && v.Contents(chain) == Ok(found) && e.Scanned(v, parentId, chain) == Ok(t)
    requires id == e.nextId && visited == e.visited
    ensures IsScanned(e, t, v.FileEntries(parentId, found, id), NewDirectories(parentId, found, visited)) == true
  {}

  ghost predicate IsScanned(e: WalkState, t: WalkState, files: seq<WalkEntry>, dirs: seq<Pending>) {
    Holds(t, e.entries + files, e.nextId + |files|, e.visited + Clusters(dirs), e.queue + dirs)
  }

  lemma BothHold(s: WalkState, e: WalkState, t: WalkState, chain: seq<U32>, files: seq<WalkEntry>,
                 dirs: seq<Pending>)
    requires s.queue != [] && IsEntered(s, e, chain) == true && IsScanned(e, t, files, dirs) == true
    ensures Moves(s, t, chain, files, dirs) == true
  {}

  /** Every successful walk keeps the invariant to its end. */
  lemma {:induction false} RunKeepsInv(v: Volume, s: WalkState)
    requires v.Valid() && Inv(v, s) && Run(v, s).Ok?
    ensures Inv(v, Run(v, s).value) && Run(v, s).value.queue == []
    decreases Remaining(s)
  {
    if s.queue != [] {
      PopShrinks(v, s);
      HeadHasChain(v, s);
      WalkedIsStep(v, s);
      var next := Popped(s).Walked(v, s.queue[0]).value;
      var chain, found :| Step(v, s, next, chain, found);
      StepKeepsInv(v, s, next, chain, found);
      RunKeepsInv(v, next);
    }
  }

  // ----- the finished walk -----

  lemma {:induction false} WalkedPrefix(entries: seq<WalkEntry>, i: nat)
    requires i <= |entries|
    ensures Walked(entries[..i]) <= Walked(entries)
  {
    if i == |entries| {
      assert entries[..i] == entries;
    } else {
      WalkedPrefix(entries[..|entries| - 1], i);
      assert entries[..|entries| - 1][..i] == entries[..i];
    }
  }

  /** Where a directory entry stands in the order of discovery. */
  lemma WalkedPosition(entries: seq<WalkEntry>, i: nat)
    requires i < |entries| && entries[i].IsDirectory()
    ensures |Walked(entries[..i])| < |Walked(entries[..i + 1])| <= |Walked(entries)|
    ensures Walked(entries)[|Walked(entries[..i])|] == Start(entries[i])
  {
    assert entries[..i + 1][..i] == entries[..i];
    WalkedPrefix(entries, i + 1);
  }

  lemma DirectoriesInOrder(s: WalkState, i: nat, j: nat)
    requires s.queue == [] && BreadthFirst(Discovered(s))
    requires i < j < |s.entries| && s.entries[i].IsDirectory() && s.entries[j].IsDirectory()
    ensures Precedes(Start(s.entries[i]), Start(s.entries[j]))
  {
    WalkedPosition(s.entries, i);
    WalkedPosition(s.entries, j);
    WalkedPrefix(s.entries[..j], i + 1);
    assert s.entries[..j][..i + 1] == s.entries[..i + 1];
    assert Discovered(s) == Walked(s.entries);
    assert Precedes(Discovered(s)[|Walked(s.entries[..i])|], Discovered(s)[|Walked(s.entries[..j])|]);
  }

  lemma {:induction false} EntryOfWalked(entries: seq<WalkEntry>, q: Pending) returns (i: nat)
    requires q in Walked(entries)
    ensures i < |entries| && entries[i].IsDirectory() && Start(entries[i]) == q
  {
    var n := |entries| - 1;
    if q in Walked(entries[..n]) {
      i := EntryOfWalked(entries[..n], q);
    } else {
      i := n;
    }
  }

  ghost predicate IsDirectoryAt(s: WalkState, i: nat) {
    i < |s.entries| && s.entries[i].IsDirectory()
  }

  ghost predicate WalkedAs(s: WalkState, i: nat, cluster: U32) {
    IsDirectoryAt(s, i) && s.entries[i].cluster == cluster
  }

  ghost predicate Visited(s: WalkState, cluster: U32) {
    cluster in s.visited
  }

  /** On every volume the walk can read to the end: ids number the entries; parents come first; no start cluster is
      walked twice; directories appear breadth first; each holds exactly the entries of its own records; every listed
      subdirectory is walked and every walked directory but the root is listed in its parent; files carry their
      chains. */
  lemma WalkIsExact(v: Volume)
    requires v.Valid() && Run(v, Initial(v)).Ok?
    ensures var s := Run(v, Initial(v)).value;
      && Numbered(s) && Parented(s) && Explored(v, s) && Owned(v, s) && AllChained(v, s.entries)
      && (forall i: nat, j: nat | i < j && IsDirectoryAt(s, i) && IsDirectoryAt(s, j) ::
            Precedes(Start(s.entries[i]), Start(s.entries[j])))
      && (forall i: nat | IsDirectoryAt(s, i) :: FoundAt(v, s, Start(s.entries[i])))
      && (forall c | Visited(s, c) :: exists i :: WalkedAs(s, i, c))
      && Visited(s, v.reader.boot.rootDirectoryCluster)
  {
    InitialInv(v);
    RunKeepsInv(v, Initial(v));
    var s := Run(v, Initial(v)).value;
    assert Discovered(s) == Walked(s.entries);
    forall i: nat, j: nat | i < j && IsDirectoryAt(s, i) && IsDirectoryAt(s, j)
      ensures Precedes(Start(s.entries[i]), Start(s.entries[j]))
    {
      DirectoriesInOrder(s, i, j);
    }
    forall i: nat | IsDirectoryAt(s, i) ensures FoundAt(v, s, Start(s.entries[i])) {
      WalkedPosition(s.entries, i);
      assert FoundAt(v, s, Discovered(s)[|Walked(s.entries[..i])|]);
    }
    forall c | Visited(s, c) ensures exists i :: WalkedAs(s, i, c) {
      var q :| q in Discovered(s) && q.cluster == c;
      var i := EntryOfWalked(s.entries, q);
      assert WalkedAs(s, i, c);
    }
    assert Discovered(s)[0] in Discovered(s);
  }
}
