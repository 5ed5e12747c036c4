/** The FAT32 investigation result: repeated (parent, name) pairs are discarded and counted. */
module Fat32Investigation {
  import opened Machine

  datatype FoundEntry = FoundEntry(
    objectId: nat, parentId: nat, name: string, isDirectory: bool, isVolumeLabel: bool, deleted: bool, size: U64,
    attributes: Byte, cluster: U32, chain: seq<U32>)

  type Key = (nat, string)

  function KeyOf(e: FoundEntry): Key {
    (e.parentId, e.name)
  }

  ghost function Keys(added: seq<FoundEntry>): set<Key> {
    set e | e in added :: KeyOf(e)
  }

  /** Position i holds the first entry with its key. */
  ghost predicate IsFirstAt(added: seq<FoundEntry>, i: nat)
    requires i < |added|
  {
    forall j | 0 <= j < i :: !SamePlace(added[j], added[i])
  }

  /** The same name in the same directory. */
  ghost predicate SamePlace(a: FoundEntry, b: FoundEntry) {
    a.parentId == b.parentId && a.name == b.name
  }

  lemma FirstAtIff(added: seq<FoundEntry>, i: nat)
    requires i < |added|
    ensures IsFirstAt(added, i) <==> KeyOf(added[i]) !in Keys(added[..i])
  {
    forall j | 0 <= j < i ensures SamePlace(added[j], added[i]) ==> KeyOf(added[i]) in Keys(added[..i]) {
      assert added[..i][j] == added[j] && added[j] in added[..i];
    }
    if KeyOf(added[i]) in Keys(added[..i]) {
      var e :| e in added[..i] && KeyOf(e) == KeyOf(added[i]);
      var j :| 0 <= j < i && added[..i][j] == e;
      assert SamePlace(added[j], added[i]);
    }
  }

  /** The entries that are the first with their key, in order. */
  ghost function Firsts(added: seq<FoundEntry>): seq<FoundEntry> {
    if added == [] then []
    else
      var n := |added| - 1;
      Firsts(added[..n]) + if IsFirstAt(added, n) then [added[n]] else []
  }

  class Investigation {
    var entries: seq<FoundEntry>
    var records: nat
    var seen: set<Key>
    var noiseDiscarded: nat
    /** Everything that was ever added. */
    ghost var added: seq<FoundEntry>

    constructor ()
      ensures Valid() && added == [] && records == 0
    {
      entries, records, seen, noiseDiscarded, added := [], 0, {}, 0, [];
    }

    /** Nothing is lost uncounted: the entries are the first occurrences, the rest is counted as noise. */
    ghost predicate Valid()
      reads this
    {
      entries == Firsts(added) && seen == Keys(added) && |entries| + noiseDiscarded == |added|
    }

    method AddEntry(e: FoundEntry)
      requires Valid()
      modifies this
      ensures Valid() && added == old(added) + [e] && records == old(records)
    {
      var key := KeyOf(e);
      assert (added + [e])[..|added|] == added;
      KeysAppend(added, e);
      FirstAtIff(added + [e], |added|);
      if key !in seen {
        seen := seen + {key};
        entries := entries + [e];
      } else {
        noiseDiscarded := noiseDiscarded + 1;
      }
      added := added + [e];
    }

    method IncrementRecords()
      requires Valid()
      modifies `records
      ensures Valid() && records == old(records) + 1
    {
      records := records + 1;
    }
  }

  lemma KeysAppend(added: seq<FoundEntry>, e: FoundEntry)
    ensures Keys(added + [e]) == Keys(added) + {KeyOf(e)}
  {
    forall k | k in Keys(added) + {KeyOf(e)} ensures k in Keys(added + [e]) {
      if k in Keys(added) {
        var d :| d in added && KeyOf(d) == k;
        assert d in added + [e];
      } else {
        assert e in added + [e];
      }
    }
  }

  ghost predicate UniqueKeys(entries: seq<FoundEntry>) {
    forall i, j | 0 <= i < j < |entries| :: !SamePlace(entries[i], entries[j])
  }

  ghost predicate IncreasingIds(entries: seq<FoundEntry>) {
    forall i, j | 0 <= i < j < |entries| :: entries[i].objectId < entries[j].objectId
  }

  /** Discarding keeps one entry for every (parent, name) pair that was ever added, and only those. */
  lemma {:induction false} OnePerKey(added: seq<FoundEntry>)
    ensures UniqueKeys(Firsts(added)) && Keys(Firsts(added)) == Keys(added)
  {
    if added == [] {
    } else {
      var n := |added| - 1;
      var front := Firsts(added[..n]);
      OnePerKey(added[..n]);
      assert added == added[..n] + [added[n]];
      KeysAppend(added[..n], added[n]);
      KeysAppend(front, added[n]);
      UniqueAppend(front, added[n]);
      FirstAtIff(added, n);
    }
  }

  lemma UniqueAppend(entries: seq<FoundEntry>, e: FoundEntry)
    requires UniqueKeys(entries)
    ensures KeyOf(e) !in Keys(entries) ==> UniqueKeys(entries + [e])
  {
    forall i | 0 <= i < |entries| ensures KeyOf(entries[i]) in Keys(entries) {
      assert entries[i] in entries;
    }
  }

  lemma FirstAtPrefix(added: seq<FoundEntry>, n: nat, i: nat)
    requires i < n <= |added|
    ensures IsFirstAt(added[..n], i) == IsFirstAt(added, i)
  {
    assert forall j | 0 <= j <= i :: added[..n][j] == added[j];
  }

  /** An entry is kept exactly when nothing with its key was added before it. */
  lemma {:induction false} KeptIffFirst(added: seq<FoundEntry>, e: FoundEntry)
    ensures e in Firsts(added) <==> exists i :: 0 <= i < |added| && added[i] == e && IsFirstAt(added, i)
  {
    if added != [] {
      var n := |added| - 1;
      KeptIffFirst(added[..n], e);
      forall i: nat | i < n ensures IsFirstAt(added, i) == IsFirstAt(added[..n], i) {
        FirstAtPrefix(added, n, i);
      }
      if e in Firsts(added[..n]) {
        var i :| 0 <= i < n && added[..n][i] == e && IsFirstAt(added[..n], i);
        assert IsFirstAt(added, i);
      }
    }
  }

  /** Ids are handed out in increasing order, discarded or not, so the kept ones are distinct. */
  lemma {:induction false} KeptIdsIncrease(added: seq<FoundEntry>)
    requires IncreasingIds(added)
    ensures IncreasingIds(Firsts(added))
    ensures forall i | 0 <= i < |Firsts(added)| :: Firsts(added)[i] in added
  {
    if added != [] {
      var n := |added| - 1;
      var front := Firsts(added[..n]);
      KeptIdsIncrease(added[..n]);
      forall i | 0 <= i < |front| ensures front[i] in added && front[i].objectId < added[n].objectId {
        assert front[i] in added[..n];
      }
      IncreasingAppend(front, added[n]);
    }
  }

  lemma IncreasingAppend(entries: seq<FoundEntry>, e: FoundEntry)
    requires IncreasingIds(entries) && forall i | 0 <= i < |entries| :: entries[i].objectId < e.objectId
    ensures IncreasingIds(entries + [e])
  {}

  // ----- orphans -----

  ghost predicate DistinctIds(added: seq<FoundEntry>) {
    forall i, j | 0 <= i < j < |added| :: added[i].objectId != added[j].objectId
  }

  ghost predicate ParentAdded(added: seq<FoundEntry>, i: nat)
    requires i < |added|
  {
    exists k :: 0 <= k < |added| && added[k].objectId == added[i].parentId
  }

  ghost predicate ParentsAdded(added: seq<FoundEntry>) {
    forall i: nat | i < |added| :: ParentAdded(added, i)
  }

  /** A kept entry whose parent is not among the kept entries. */
  ghost predicate Orphaned(kept: seq<FoundEntry>, e: FoundEntry) {
    e in kept && forall d | d in kept :: d.objectId != e.parentId
  }

  /** Position k is discarded although position i names it as parent. */
  ghost predicate DiscardedParent(added: seq<FoundEntry>, k: nat, i: nat) {
    k < |added| && i < |added| && !IsFirstAt(added, k) && added[i].parentId == added[k].objectId
  }

  lemma FirstIsKept(added: seq<FoundEntry>, k: nat)
    requires DistinctIds(added) && k < |added|
    ensures added[k] in Firsts(added) <==> IsFirstAt(added, k)
  {
    KeptIffFirst(added, added[k]);
    if added[k] in Firsts(added) {
      var j :| 0 <= j < |added| && added[j] == added[k] && IsFirstAt(added, j);
      assert j == k;
    }
  }

  /** Every key is first added somewhere. */
  lemma {:induction false} FirstWithKey(added: seq<FoundEntry>, i: nat) returns (j: nat)
    requires i < |added|
    ensures j <= i && KeyOf(added[j]) == KeyOf(added[i]) && IsFirstAt(added, j)
  {
    if IsFirstAt(added, i) {
      j := i;
    } else {
      FirstAtIff(added, i);
      var e :| e in added[..i] && KeyOf(e) == KeyOf(added[i]);
      var k :| 0 <= k < i && added[..i][k] == e;
      j := FirstWithKey(added, k);
    }
  }

  lemma KeptAreAdded(added: seq<FoundEntry>, e: FoundEntry)
    requires e in Firsts(added)
    ensures e in added
  {
    KeptIffFirst(added, e);
  }

  /** A discarded parent leaves an orphan: the first child of some name under it is kept. */
  lemma DiscardedParentOrphans(added: seq<FoundEntry>, k: nat, i: nat) returns (e: FoundEntry)
    requires DistinctIds(added) && DiscardedParent(added, k, i)
    ensures Orphaned(Firsts(added), e)
  {
    var j := FirstWithKey(added, i);
    e := added[j];
    FirstIsKept(added, j);
    forall d | d in Firsts(added) ensures d.objectId != e.parentId {
      KeptAreAdded(added, d);
      var m :| 0 <= m < |added| && added[m] == d;
      FirstIsKept(added, m);
      assert m != k;
    }
  }

  lemma OrphanHasDiscardedParent(added: seq<FoundEntry>, e: FoundEntry) returns (k: nat, i: nat)
    requires DistinctIds(added) && ParentsAdded(added) && Orphaned(Firsts(added), e)
    ensures DiscardedParent(added, k, i)
  {
    KeptAreAdded(added, e);
    i :| 0 <= i < |added| && added[i] == e;
    assert ParentAdded(added, i);
    k :| 0 <= k < |added| && added[k].objectId == added[i].parentId;
    FirstIsKept(added, k);
  }

  ghost predicate HasOrphan(kept: seq<FoundEntry>) {
    exists e :: Orphaned(kept, e)
  }

  ghost predicate HasDiscardedParent(added: seq<FoundEntry>) {
    exists k: nat, i: nat :: DiscardedParent(added, k, i)
  }

  /** Every kept entry keeps its parent exactly when no discarded entry is named as parent by an added one. */
  lemma OrphansIffDiscardedParents(added: seq<FoundEntry>)
    requires DistinctIds(added) && ParentsAdded(added)
    ensures HasOrphan(Firsts(added)) <==> HasDiscardedParent(added)
  {
    if HasOrphan(Firsts(added)) {
      var e :| Orphaned(Firsts(added), e);
      var k, i := OrphanHasDiscardedParent(added, e);
      assert DiscardedParent(added, k, i);
    }
    if HasDiscardedParent(added) {
      var k: nat, i: nat :| DiscardedParent(added, k, i);
      var e := DiscardedParentOrphans(added, k, i);
      assert Orphaned(Firsts(added), e);
    }
  }

  /** Discarding can orphan an entry: two directory records of one name, and a file in the second. */
  lemma DiscardingCanOrphan() returns (added: seq<FoundEntry>, file: FoundEntry)
    ensures IncreasingIds(added) && ParentsAdded(added) && DiscardedParent(added, 2, 3) && Orphaned(Firsts(added), file)
  {
    var root := FoundEntry(1, 1, "/", true, false, false, 0, 0x10, 2, [2]);
    var first := FoundEntry(2, 1, "A", true, false, false, 0, 0x10, 3, [3]);
    var second := FoundEntry(3, 1, "A", true, false, false, 0, 0x10, 4, [4]);
    file := FoundEntry(4, 3, "F", false, false, false, 1, 0x20, 5, [5]);
    added := [root, first, second, file];
    assert added[..2] == [root, first] && first in added[..2];
    assert !IsFirstAt(added, 2);
    assert ParentsAdded(added) by {
      assert added[0].objectId == added[0].parentId == added[1].parentId == added[2].parentId;
      assert added[2].objectId == added[3].parentId;
    }
    file := DiscardedParentOrphans(added, 2, 3);
  }
}
