/** What a FAT32 walk finds: every record of every walked directory, and nothing else. */
module Fat32Hierarchy {
  import opened Machine
  import opened Fat32Investigation
  import opened Fat32Walk

  // ----- records and their entries -----

  /** A record with the directory bit and without the label bit. */
  ghost predicate NamesDirectory(p: FoundRecord) {
    (p.attributes / 16) % 2 == 1 && (p.attributes / 8) % 2 == 0
  }

  /** The entry of a record that is no directory, under the directory numbered `parentId`. */
  ghost predicate Shows(v: Volume, e: FoundEntry, parentId: nat, p: FoundRecord)
    requires v.Valid()
  {
    && e.parentId == parentId && e.name == p.name && e.attributes == p.attributes && !e.isDirectory
    && if (p.attributes / 8) % 2 == 1
       then e.isVolumeLabel && !e.deleted && e.size == 0 && e.cluster == 0 && e.chain == []
       else
         && !e.isVolumeLabel && e.deleted == p.deleted && e.size == p.size && e.cluster == p.cluster
         && e.chain == v.disk.FileChain(p.cluster, p.size)
  }

  /** The records of a directory, cluster after cluster. */
  function Contents(v: Volume, chain: seq<U32>): Result<seq<FoundRecord>> {
    if chain == [] then Ok([])
    else
      var buffer :- v.ReadDirectoryCluster(chain[0]);
      Prepend(v.parse(buffer), Contents(v, chain[1..]))
  }

  ghost predicate InContents(v: Volume, chain: seq<U32>, p: FoundRecord) {
    Contents(v, chain).Ok? && p in Contents(v, chain).value
  }

  ghost predicate HasEntry(v: Volume, s: WalkState, parentId: nat, p: FoundRecord)
    requires v.Valid()
  {
    exists i: nat :: i < |s.added| && Shows(v, s.added[i], parentId, p)
  }

  /** The record was dealt with: its directory is visited, or its entry was added. */
  ghost predicate Listed(v: Volume, s: WalkState, parentId: nat, p: FoundRecord)
    requires v.Valid()
  {
    if NamesDirectory(p) then p.cluster >= 2 ==> p.cluster in s.visited else HasEntry(v, s, parentId, p)
  }

  // ----- what the walk keeps -----

  /** Every record of directory i is dealt with. */
  ghost predicate ExploredAt(v: Volume, s: WalkState, i: nat)
    requires v.Valid() && i < |s.added|
  {
    && Contents(v, s.added[i].chain).Ok?
    && forall p | p in Contents(v, s.added[i].chain).value :: Listed(v, s, s.added[i].objectId, p)
  }

  ghost predicate Explored(v: Volume, s: WalkState, n: nat)
    requires v.Valid() && n <= |s.added|
  {
    forall i: nat | i < n && s.added[i].isDirectory :: ExploredAt(v, s, i)
  }

  ghost predicate IsWalkedAs(v: Volume, s: WalkState, i: nat, cluster: U32) {
    i < |s.added| && s.added[i].isDirectory && s.added[i].cluster == cluster
    && v.DirectoryChain(cluster) == Ok(s.added[i].chain)
  }

  ghost predicate IsQueued(s: WalkState, k: nat, cluster: U32) {
    k < |s.queue| && s.queue[k].cluster == cluster
  }

  /** A visited directory has its entry, unless it has nothing to walk or is still waiting. */
  ghost predicate Reached(v: Volume, s: WalkState, cluster: U32) {
    v.DirectoryChain(cluster) == Ok([]) || (exists i: nat :: IsWalkedAs(v, s, i, cluster))
    || exists k: nat :: IsQueued(s, k, cluster)
  }

  ghost predicate AllReached(v: Volume, s: WalkState) {
    forall c | c in s.visited :: Reached(v, s, c)
  }

  /** The entry of a walked directory. */
  ghost predicate ShowsDirectory(e: FoundEntry) {
    e.isDirectory && !e.isVolumeLabel && !e.deleted && e.size == 0 && e.attributes == 0x10
  }

  /** An added entry goes back to a record of its parent; only the first, the root directory, does not. */
  ghost predicate OwnedAt(v: Volume, s: WalkState, i: nat)
    requires v.Valid() && i < |s.added|
  {
    if i == 0 then
      && IsWalkedAs(v, s, 0, v.disk.boot.rootCluster) && ShowsDirectory(s.added[0])
      && s.added[0].objectId == 1 && s.added[0].parentId == 1 && s.added[0].name == "/"
    else
      var e := s.added[i];
      && 1 <= e.parentId <= i
      && exists p :: InContents(v, s.added[e.parentId - 1].chain, p) && IsEntryOf(v, e, p)
  }

  ghost predicate IsEntryOf(v: Volume, e: FoundEntry, p: FoundRecord)
    requires v.Valid()
  {
    if e.isDirectory
    then
      && ShowsDirectory(e)
      && NamesDirectory(p) && e.name == p.name && e.cluster == p.cluster && e.cluster >= 2 && e.chain != []
      && v.DirectoryChain(e.cluster) == Ok(e.chain)
    else !NamesDirectory(p) && Shows(v, e, e.parentId, p)
  }

  /** So does a waiting directory. */
  ghost predicate QueueOwnedAt(v: Volume, s: WalkState, k: nat)
    requires k < |s.queue|
  {
    var q := s.queue[k];
    if s.added == [] then q == Pending(v.disk.boot.rootCluster, 1, "/") && s.nextId == 1
    else 1 <= q.parentId <= |s.added| && IsPromised(v, s.added[q.parentId - 1].chain, q)
  }

  ghost predicate IsPromised(v: Volume, chain: seq<U32>, q: Pending) {
    exists p :: InContents(v, chain, p) && NamesDirectory(p) && p.name == q.name && p.cluster == q.cluster >= 2
  }

  ghost predicate Owned(v: Volume, s: WalkState)
    requires v.Valid()
  {
    && (forall i: nat | i < |s.added| :: OwnedAt(v, s, i))
    && (forall k: nat | k < |s.queue| :: QueueOwnedAt(v, s, k))
  }

  // ----- adding to a state -----

  /** The later state has all entries, visited directories and waiting directories of the earlier one. */
  ghost predicate Extends(s: WalkState, t: WalkState) {
    s.added <= t.added && s.visited <= t.visited && s.queue <= t.queue
  }

  lemma ListedStays(v: Volume, s: WalkState, t: WalkState, parentId: nat, p: FoundRecord)
    requires v.Valid() && Listed(v, s, parentId, p) && s.added <= t.added && s.visited <= t.visited
    ensures Listed(v, t, parentId, p)
  {
    if !NamesDirectory(p) {
      var i: nat :| i < |s.added| && Shows(v, s.added[i], parentId, p);
      assert t.added[i] == s.added[i];
    }
  }

  lemma ReachedStays(v: Volume, s: WalkState, t: WalkState, cluster: U32)
    requires Reached(v, s, cluster) && Extends(s, t)
    ensures Reached(v, t, cluster)
  {
    if i: nat :| IsWalkedAs(v, s, i, cluster) {
      assert IsWalkedAs(v, t, i, cluster);
    } else if k: nat :| IsQueued(s, k, cluster) {
      assert IsQueued(t, k, cluster);
    }
  }

  lemma RegisterLists(v: Volume, s: WalkState, parentId: nat, p: FoundRecord)
    requires v.Valid()
    ensures var t := v.Register(s, parentId, p); Extends(s, t) && Listed(v, t, parentId, p)
  {
    var t := v.Register(s, parentId, p);
    if !NamesDirectory(p) {
      assert Shows(v, t.added[|s.added|], parentId, p);
    }
  }

  lemma {:induction false} RegisterAllLists(v: Volume, s: WalkState, parentId: nat, records: seq<FoundRecord>)
    requires v.Valid()
    ensures var t := v.RegisterAll(s, parentId, records);
      Extends(s, t) && forall p | p in records :: Listed(v, t, parentId, p)
  {
    if records != [] {
      var front, last := records[..|records| - 1], records[|records| - 1];
      RegisterAllLists(v, s, parentId, front);
      var middle := v.RegisterAll(s, parentId, front);
      RegisterLists(v, middle, parentId, last);
      var t := v.RegisterAll(s, parentId, records);
      forall p | p in records ensures Listed(v, t, parentId, p) {
        if p in front {
          ListedStays(v, middle, t, parentId, p);
        }
      }
    }
  }

  lemma {:induction false} ScanLists(v: Volume, s: WalkState, parentId: nat, chain: seq<U32>)
    requires v.Valid() && v.Scan(s, parentId, chain).Ok?
    ensures Contents(v, chain).Ok?
    ensures var t := v.Scan(s, parentId, chain).value;
      Extends(s, t) && forall p | p in Contents(v, chain).value :: Listed(v, t, parentId, p)
    decreases |chain|
  {
    if chain != [] {
      var records := v.parse(v.ReadDirectoryCluster(chain[0]).value);
      var counted := s.(records := s.records + 1);
      var middle := v.RegisterAll(counted, parentId, records);
      RegisterAllLists(v, counted, parentId, records);
      ScanLists(v, middle, parentId, chain[1..]);
      var t := v.Scan(s, parentId, chain).value;
      forall p | p in Contents(v, chain).value ensures Listed(v, t, parentId, p) {
        if p in records {
          ListedStays(v, middle, t, parentId, p);
        }
      }
    }
  }

  lemma RegisterReaches(v: Volume, s: WalkState, parentId: nat, p: FoundRecord)
    requires v.Valid() && AllReached(v, s)
    ensures AllReached(v, v.Register(s, parentId, p))
  {
    var t := v.Register(s, parentId, p);
    forall c | c in t.visited ensures Reached(v, t, c) {
      if c in s.visited {
        ReachedStays(v, s, t, c);
      } else {
        assert IsQueued(t, |s.queue|, c);
      }
    }
  }

  lemma {:induction false} RegisterAllReaches(v: Volume, s: WalkState, parentId: nat, records: seq<FoundRecord>)
    requires v.Valid() && AllReached(v, s)
    ensures AllReached(v, v.RegisterAll(s, parentId, records))
  {
    if records != [] {
      RegisterAllReaches(v, s, parentId, records[..|records| - 1]);
      RegisterReaches(v, v.RegisterAll(s, parentId, records[..|records| - 1]), parentId, records[|records| - 1]);
    }
  }

  lemma {:induction false} ScanReaches(v: Volume, s: WalkState, parentId: nat, chain: seq<U32>)
    requires v.Valid() && AllReached(v, s) && v.Scan(s, parentId, chain).Ok?
    ensures AllReached(v, v.Scan(s, parentId, chain).value)
    decreases |chain|
  {
    if chain != [] {
      var records := v.parse(v.ReadDirectoryCluster(chain[0]).value);
      var counted := s.(records := s.records + 1);
      forall c | c in counted.visited ensures Reached(v, counted, c) {
        ReachedStays(v, s, counted, c);
      }
      RegisterAllReaches(v, counted, parentId, records);
      ScanReaches(v, v.RegisterAll(counted, parentId, records), parentId, chain[1..]);
    }
  }

  lemma OwnedStays(v: Volume, s: WalkState, t: WalkState, i: nat)
    requires v.Valid() && i < |s.added| && s.added <= t.added && OwnedAt(v, s, i)
    ensures OwnedAt(v, t, i)
  {
    var e := s.added[i];
    assert t.added[i] == e;
    if i > 0 {
      assert t.added[e.parentId - 1] == s.added[e.parentId - 1];
    }
  }

  lemma QueueOwnedStays(v: Volume, s: WalkState, t: WalkState, k: nat, j: nat)
    requires k < |s.queue| && j < |t.queue| && t.queue[j] == s.queue[k] && s.added != [] && s.added <= t.added
    requires QueueOwnedAt(v, s, k)
    ensures QueueOwnedAt(v, t, j)
  {
    assert t.added[s.queue[k].parentId - 1] == s.added[s.queue[k].parentId - 1];
  }

  lemma RegisterOwns(v: Volume, s: WalkState, parentId: nat, p: FoundRecord)
    requires v.Valid() && Owned(v, s) && 1 <= parentId <= |s.added|
    requires InContents(v, s.added[parentId - 1].chain, p)
    ensures Owned(v, v.Register(s, parentId, p))
  {
    var t := v.Register(s, parentId, p);
    forall i: nat | i < |t.added| ensures OwnedAt(v, t, i) {
      if i < |s.added| {
        OwnedStays(v, s, t, i);
      } else {
        assert InContents(v, t.added[parentId - 1].chain, p) && IsEntryOf(v, t.added[i], p);
      }
    }
    forall k: nat | k < |t.queue| ensures QueueOwnedAt(v, t, k) {
      if k < |s.queue| {
        QueueOwnedStays(v, s, t, k, k);
      } else {
        assert IsPromised(v, t.added[parentId - 1].chain, t.queue[k]);
      }
    }
  }

  lemma {:induction false} RegisterAllOwns(v: Volume, s: WalkState, parentId: nat, records: seq<FoundRecord>)
    requires v.Valid() && Owned(v, s) && 1 <= parentId <= |s.added|
    requires forall p | p in records :: InContents(v, s.added[parentId - 1].chain, p)
    ensures Owned(v, v.RegisterAll(s, parentId, records)) && s.added <= v.RegisterAll(s, parentId, records).added
  {
    if records != [] {
      var front, last := records[..|records| - 1], records[|records| - 1];
      assert last in records && forall p | p in front :: p in records;
      RegisterAllOwns(v, s, parentId, front);
      var middle := v.RegisterAll(s, parentId, front);
      assert middle.added[parentId - 1] == s.added[parentId - 1];
      RegisterOwns(v, middle, parentId, last);
    }
  }

  lemma {:induction false} ScanOwns(v: Volume, s: WalkState, parentId: nat, chain: seq<U32>, whole: seq<U32>)
    requires v.Valid() && Owned(v, s) && 1 <= parentId <= |s.added| && s.added[parentId - 1].chain == whole
    requires Contents(v, whole).Ok? && v.Scan(s, parentId, chain).Ok? && Contents(v, chain).Ok?
    requires forall p | p in Contents(v, chain).value :: InContents(v, whole, p)
    ensures Owned(v, v.Scan(s, parentId, chain).value)
    decreases |chain|
  {
    if chain != [] {
      var records := v.parse(v.ReadDirectoryCluster(chain[0]).value);
      var counted := s.(records := s.records + 1);
      CountOwns(v, s);
      forall p | p in records ensures InContents(v, whole, p) {
        assert p in Contents(v, chain).value;
      }
      RegisterAllOwns(v, counted, parentId, records);
      var middle := v.RegisterAll(counted, parentId, records);
      assert middle.added[parentId - 1] == s.added[parentId - 1];
      forall p | p in Contents(v, chain[1..]).value ensures InContents(v, whole, p) {
        assert p in Contents(v, chain).value;
      }
      ScanOwns(v, middle, parentId, chain[1..], whole);
    }
  }

  lemma CountOwns(v: Volume, s: WalkState)
    requires v.Valid() && Owned(v, s)
    ensures Owned(v, s.(records := s.records + 1))
  {
    var t := s.(records := s.records + 1);
    forall i: nat | i < |t.added| ensures OwnedAt(v, t, i) {
      OwnedStays(v, s, t, i);
    }
    forall k: nat | k < |t.queue| ensures QueueOwnedAt(v, t, k) {
      assert QueueOwnedAt(v, s, k);
    }
  }

  // ----- one step -----

  ghost predicate Found(v: Volume, s: WalkState)
    requires v.Valid()
  {
    Explored(v, s, |s.added|) && AllReached(v, s) && Owned(v, s)
  }

  lemma SkipKeepsFound(v: Volume, s: WalkState)
    requires v.Valid() && Inv(s) && Found(v, s) && s.queue != [] && v.DirectoryChain(s.queue[0].cluster) == Ok([])
    ensures Found(v, Popped(s))
  {
    var t := Popped(s);
    forall i: nat | i < |t.added| && t.added[i].isDirectory ensures ExploredAt(v, t, i) {
      assert ExploredAt(v, s, i);
      forall p | p in Contents(v, t.added[i].chain).value ensures Listed(v, t, t.added[i].objectId, p) {
        ListedStays(v, s, t, t.added[i].objectId, p);
      }
    }
    PoppedReaches(v, s);
    forall i: nat | i < |t.added| ensures OwnedAt(v, t, i) {
      OwnedStays(v, s, t, i);
    }
    PoppedOwnsQueue(v, s);
  }

  lemma PoppedReaches(v: Volume, s: WalkState)
    requires s.queue != [] && AllReached(v, s)
    ensures forall c | c in s.visited :: c == s.queue[0].cluster || Reached(v, Popped(s), c)
  {
    var t := Popped(s);
    forall c | c in s.visited && c != s.queue[0].cluster ensures Reached(v, t, c) {
      assert Reached(v, s, c);
      if i: nat :| IsWalkedAs(v, s, i, c) {
        assert IsWalkedAs(v, t, i, c);
      } else if k: nat :| IsQueued(s, k, c) {
        assert IsQueued(t, k - 1, c);
      }
    }
  }

  lemma PoppedOwnsQueue(v: Volume, s: WalkState)
    requires v.Valid() && Inv(s) && Owned(v, s) && s.queue != []
    ensures forall k: nat | k < |Popped(s).queue| :: QueueOwnedAt(v, Popped(s), k)
  {
    forall k: nat | k < |Popped(s).queue| ensures QueueOwnedAt(v, Popped(s), k) {
      assert QueueOwnedAt(v, s, k + 1) && Queued(s, s.queue[k + 1]);
    }
  }

  lemma EnterKeepsReached(v: Volume, s: WalkState, chain: seq<U32>)
    requires v.Valid() && AllReached(v, s) && s.queue != [] && v.DirectoryChain(s.queue[0].cluster) == Ok(chain)
    ensures AllReached(v, v.Entered(Popped(s), s.queue[0], chain))
  {
    var t := v.Entered(Popped(s), s.queue[0], chain);
    PoppedReaches(v, s);
    forall c | c in t.visited ensures Reached(v, t, c) {
      if c == s.queue[0].cluster {
        assert IsWalkedAs(v, t, |s.added|, c);
      } else {
        ReachedStays(v, Popped(s), t, c);
      }
    }
  }

  lemma EnterKeepsOwned(v: Volume, s: WalkState, chain: seq<U32>)
    requires v.Valid() && Inv(s) && Owned(v, s) && s.queue != [] && chain != []
    requires v.DirectoryChain(s.queue[0].cluster) == Ok(chain)
    ensures Owned(v, v.Entered(Popped(s), s.queue[0], chain))
  {
    var d, t := s.queue[0], v.Entered(Popped(s), s.queue[0], chain);
    assert QueueOwnedAt(v, s, 0) && Queued(s, d);
    forall i: nat | i < |t.added| ensures OwnedAt(v, t, i) {
      if i < |s.added| {
        OwnedStays(v, s, t, i);
      } else if i > 0 {
        EnteredIsOwned(v, s, d, t, chain);
      }
    }
    EnterKeepsQueueOwned(v, s, chain);
  }

  lemma EnterKeepsQueueOwned(v: Volume, s: WalkState, chain: seq<U32>)
    requires v.Valid() && Inv(s) && Owned(v, s) && s.queue != []
    ensures var t := v.Entered(Popped(s), s.queue[0], chain); forall k: nat | k < |t.queue| :: QueueOwnedAt(v, t, k)
  {
    var t := v.Entered(Popped(s), s.queue[0], chain);
    forall k: nat | k < |t.queue| ensures QueueOwnedAt(v, t, k) {
      assert QueueOwnedAt(v, s, k + 1) && Queued(s, s.queue[k + 1]);
      QueueOwnedStays(v, s, t, k + 1, k);
    }
  }

  lemma EnteredIsOwned(v: Volume, s: WalkState, d: Pending, t: WalkState, chain: seq<U32>)
    requires v.Valid() && s.added != [] && s.added <= t.added && |s.added| < |t.added| && chain != []
    requires 1 <= d.parentId <= |s.added| && IsPromised(v, s.added[d.parentId - 1].chain, d)
    requires v.DirectoryChain(d.cluster) == Ok(chain)
    requires var e := t.added[|s.added|];
      ShowsDirectory(e) && e.parentId == d.parentId && e.name == d.name && e.cluster == d.cluster && e.chain == chain
    ensures OwnedAt(v, t, |s.added|)
  {
    var p :| InContents(v, s.added[d.parentId - 1].chain, p) && NamesDirectory(p) && p.name == d.name
             && p.cluster == d.cluster >= 2;
    assert t.added[d.parentId - 1] == s.added[d.parentId - 1];
    assert IsEntryOf(v, t.added[|s.added|], p);
  }

  lemma ScanExplores(v: Volume, s: WalkState, e: WalkState, d: Pending, chain: seq<U32>)
    requires v.Valid() && Explored(v, s, |s.added|) && Numbered(s) && s.queue != []
    requires e == v.Entered(Popped(s), d, chain) && v.Scan(e, s.nextId, chain).Ok?
    ensures var t := v.Scan(e, s.nextId, chain).value; |e.added| <= |t.added| && Explored(v, t, |e.added|)
  {
    ScanLists(v, e, s.nextId, chain);
    var t := v.Scan(e, s.nextId, chain).value;
    forall i: nat | i < |e.added| && t.added[i].isDirectory ensures ExploredAt(v, t, i) {
      assert t.added[i] == e.added[i];
      if i < |s.added| {
        assert e.added[i] == s.added[i] && ExploredAt(v, s, i);
        forall p | p in Contents(v, t.added[i].chain).value ensures Listed(v, t, t.added[i].objectId, p) {
          ListedStays(v, s, t, t.added[i].objectId, p);
        }
      }
    }
  }

  lemma {:induction false} RegisterAllAddsNoDirectory(v: Volume, s: WalkState, parentId: nat,
                                                      records: seq<FoundRecord>)
    requires v.Valid()
    ensures var t := v.RegisterAll(s, parentId, records);
      |s.added| <= |t.added| && forall i | |s.added| <= i < |t.added| :: !t.added[i].isDirectory
  {
    if records != [] {
      RegisterAllAddsNoDirectory(v, s, parentId, records[..|records| - 1]);
    }
  }

  lemma {:induction false} ScanAddsNoDirectory(v: Volume, s: WalkState, parentId: nat, chain: seq<U32>)
    requires v.Valid() && v.Scan(s, parentId, chain).Ok?
    ensures var t := v.Scan(s, parentId, chain).value;
      |s.added| <= |t.added| && forall i | |s.added| <= i < |t.added| :: !t.added[i].isDirectory
    decreases |chain|
  {
    if chain != [] {
      var records := v.parse(v.ReadDirectoryCluster(chain[0]).value);
      var middle := v.RegisterAll(s.(records := s.records + 1), parentId, records);
      RegisterAllAddsNoDirectory(v, s.(records := s.records + 1), parentId, records);
      ScanLists(v, middle, parentId, chain[1..]);
      ScanAddsNoDirectory(v, middle, parentId, chain[1..]);
      var t := v.Scan(s, parentId, chain).value;
      forall i | |s.added| <= i < |t.added| ensures !t.added[i].isDirectory {
        if i < |middle.added| {
          assert t.added[i] == middle.added[i];
        }
      }
    }
  }

  lemma WalkKeepsFound(v: Volume, s: WalkState, chain: seq<U32>)
    requires v.Valid() && Inv(s) && Found(v, s) && s.queue != [] && chain != []
    requires v.DirectoryChain(s.queue[0].cluster) == Ok(chain)
    requires v.Scan(v.Entered(Popped(s), s.queue[0], chain), s.nextId, chain).Ok?
    ensures Found(v, v.Scan(v.Entered(Popped(s), s.queue[0], chain), s.nextId, chain).value)
  {
    var e := v.Entered(Popped(s), s.queue[0], chain);
    ScanExplores(v, s, e, s.queue[0], chain);
    ScanAddsNoDirectory(v, e, s.nextId, chain);
    EnterKeepsReached(v, s, chain);
    ScanReaches(v, e, s.nextId, chain);
    EnterKeepsOwned(v, s, chain);
    ScanLists(v, e, s.nextId, chain);
    ScanOwns(v, e, s.nextId, chain, chain);
  }

  lemma InitialFound(v: Volume)
    requires v.Valid()
    ensures Inv(Initial(v)) && Found(v, Initial(v))
  {
    var s := Initial(v);
    assert IsQueued(s, 0, v.disk.boot.rootCluster);
  }

  lemma {:induction false} RunKeepsFound(v: Volume, s: WalkState)
    requires v.Valid() && Inv(s) && Found(v, s) && Run(v, s).Ok?
    ensures Found(v, Run(v, s).value) && Run(v, s).value.queue == []
    decreases Remaining(s)
  {
    if s.queue != [] {
      var chain := v.DirectoryChain(s.queue[0].cluster).value;
      StepShrinks(v, s);
      StepKeepsInv(v, s);
      if chain == [] {
        SkipKeepsFound(v, s);
      } else {
        WalkKeepsFound(v, s, chain);
      }
      RunKeepsFound(v, v.Walked(Popped(s), s.queue[0]).value);
    }
  }

  // ----- the finished walk -----

  /** On every volume the walk can read to the end: every record of an added directory has its entry with its own name,
      attributes, size, cluster and deleted flag, or, for a directory, its cluster visited; every visited cluster that
      can be followed as a directory is added with its chain; and every entry but the root's goes back to a record of
      its parent. */
  lemma WalkFindsEverything(v: Volume)
    requires v.Valid() && Run(v, Initial(v)).Ok?
    ensures var s := Run(v, Initial(v)).value;
      && (forall i: nat | i < |s.added| && s.added[i].isDirectory :: ExploredAt(v, s, i))
      && (forall c | c in s.visited :: v.DirectoryChain(c) == Ok([]) || exists i: nat :: IsWalkedAs(v, s, i, c))
      && (forall i: nat | i < |s.added| :: OwnedAt(v, s, i))
      && v.disk.boot.rootCluster in s.visited
  {
    InitialFound(v);
    RunKeepsFound(v, Initial(v));
    RunKeepsVisited(v, Initial(v));
    var s := Run(v, Initial(v)).value;
    forall c | c in s.visited ensures v.DirectoryChain(c) == Ok([]) || exists i: nat :: IsWalkedAs(v, s, i, c) {
      assert Reached(v, s, c);
    }
  }

  lemma {:induction false} RunKeepsVisited(v: Volume, s: WalkState)
    requires v.Valid() && Run(v, s).Ok?
    ensures s.visited <= Run(v, s).value.visited
    decreases Remaining(s)
  {
    if s.queue != [] {
      var d, chain := s.queue[0], v.DirectoryChain(s.queue[0].cluster).value;
      StepShrinks(v, s);
      if chain != [] {
        ScanLists(v, v.Entered(Popped(s), d, chain), s.nextId, chain);
      }
      RunKeepsVisited(v, v.Walked(Popped(s), d).value);
    }
  }
}
