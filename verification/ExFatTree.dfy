/** The forensic tree of an exFAT walk. */
module ExFatTree {
  import opened Machine
  import opened ForensicModel
  import opened ForensicTree
  import opened ExFatWalk
  import Candidates
  import ExFatHierarchy
  import opened PathResolution

  function KindOf(w: WalkEntry): EntryKind {
    match w.kind
    case FileRecord => File
    case FolderRecord => Directory
    case _ => Other
  }

  function StatusOf(w: WalkEntry): Status {
    if w.deleted then Deleted
    else if KindOf(w) == Other then System
    else if w.realSize > 0 && w.chain == [] then Inconsistent
    else Normal
  }

  /** How the conversion to the forensic model presents a walked entry in the hierarchy. */
  ghost predicate Presents(e: Entry, w: WalkEntry) {
    && e.objectId == w.objectId && e.parentId.Some? && e.parentId.value == w.parentId
    && e.kind == KindOf(w) && e.status == StatusOf(w)
  }

  ghost predicate PresentsAll(entries: seq<Entry>, walked: seq<WalkEntry>) {
    |entries| == |walked| && forall i | 0 <= i < |entries| :: Presents(entries[i], walked[i])
  }

  lemma WalkIsNumbered(s: WalkState, entries: seq<Entry>)
    requires ExFatHierarchy.Numbered(s) && ExFatHierarchy.Parented(s) && PresentsAll(entries, s.entries)
    ensures NumberedHierarchy(entries)
  {
    forall i: nat | i < |entries| ensures PlacedAt(entries, i) {
      assert ExFatHierarchy.ParentAt(s, i) && Presents(entries[i], s.entries[i]);
      assert Presents(entries[s.entries[i].parentId - 1], s.entries[s.entries[i].parentId - 1]);
    }
  }

  lemma WalkFindsTheRoot(v: Volume)
    requires v.Valid() && Run(v, Initial(v)).Ok?
    ensures Run(v, Initial(v)).value.entries != []
    ensures ExFatHierarchy.Numbered(Run(v, Initial(v)).value) && ExFatHierarchy.Parented(Run(v, Initial(v)).value)
  {
    ExFatHierarchy.WalkIsExact(v);
  }

  /** The tree of a successful walk has one root, the root directory, and contains every entry; ids are distinct, so
      by `DistinctForestIsExact` it contains each exactly once. */
  lemma WalkIsOneTree(v: Volume, entries: seq<Entry>)
    requires v.Valid() && Run(v, Initial(v)).Ok? && PresentsAll(entries, Run(v, Initial(v)).value.entries)
    ensures entries != [] && DistinctIds(entries) && Acyclic(entries)
    ensures |RootsFrom(entries, 0)| == 1 && RootsFrom(entries, 0)[0].objectId == 1
    ensures forall c: nat | c < |entries| :: HasNode(PreorderAll(RootsFrom(entries, 0)), entries[c].objectId)
  {
    WalkFindsTheRoot(v);
    WalkIsNumbered(Run(v, Initial(v)).value, entries);
    NumberedIsOneTree(entries);
  }

  /** The walked entries as path resolution sees them; `decode` turns recorded names into text. */
  function Named(walked: seq<WalkEntry>, decode: ExFatDirectory.RecordName -> string): (entries: seq<PathEntry>)
    ensures |entries| == |walked|
  {
    seq(|walked|, i requires 0 <= i < |walked| =>
      PathEntry(walked[i].objectId, walked[i].parentId, decode(walked[i].name), walked[i].IsDirectory()))
  }

  lemma WalkIsWellFounded(s: WalkState, decode: ExFatDirectory.RecordName -> string)
    requires ExFatHierarchy.Numbered(s) && ExFatHierarchy.Parented(s)
    ensures WellFounded(Named(s.entries, decode))
  {
    var entries := Named(s.entries, decode);
    forall e | e in entries ensures HasParent(entries, e) {
      var i: nat :| i < |entries| && entries[i] == e;
      assert ExFatHierarchy.ParentAt(s, i);
      assert entries[e.parentId - 1] in entries;
    }
  }

  /** Every path a walk resolves, below the root, is the path of the parent directory extended by the entry's name. */
  lemma WalkResolvesPaths(v: Volume, decode: ExFatDirectory.RecordName -> string, i: nat)
    requires v.Valid() && Run(v, Initial(v)).Ok? && i < |Run(v, Initial(v)).value.entries|
    ensures var walked := Run(v, Initial(v)).value.entries; var entries := Named(walked, decode);
      && 1 <= walked[i].parentId <= |entries|
      && var p := walked[i].parentId - 1;
      PathOf(entries, entries[i]) ==
        if i == 0 then "/" else (if p == 0 then "" else PathOf(entries, entries[p])) + "/" + decode(walked[i].name)
  {
    var s := Run(v, Initial(v)).value;
    WalkFindsTheRoot(v);
    WalkIsWellFounded(s, decode);
    ParentsAreEarlier(s, i);
    var entries, p := Named(s.entries, decode), s.entries[i].parentId - 1;
    ParentsAreEarlier(s, p);
    PathExtendsParent(entries, entries[i], entries[p]);
  }

  lemma ParentsAreEarlier(s: WalkState, i: nat)
    requires ExFatHierarchy.Numbered(s) && ExFatHierarchy.Parented(s) && i < |s.entries|
    ensures 1 <= s.entries[i].parentId <= Max(i, 1) && s.entries[i].objectId == i + 1
  {
    assert ExFatHierarchy.ParentAt(s, i);
  }

  // ----- what the walk offers for recovery -----

  lemma {:induction false} FoldersAreReachable(s: WalkState, entries: seq<Entry>, id: U64)
    requires ExFatHierarchy.Numbered(s) && ExFatHierarchy.Parented(s) && PresentsAll(entries, s.entries)
    requires ExFatHierarchy.IsFolderId(s, id)
    ensures Candidates.Reachable(entries, 1, id)
    decreases id
  {
    Candidates.ReachableIff(entries, 1, id);
    if id > 1 {
      ParentsAreEarlier(s, id - 1);
      assert ExFatHierarchy.ParentAt(s, id - 1) && Presents(entries[id - 1], s.entries[id - 1]);
      FoldersAreReachable(s, entries, s.entries[id - 1].parentId);
      assert Candidates.StepsFrom(entries, 1, id - 1, s.entries[id - 1].parentId, id);
    }
  }

  /** From the root, everything a finished walk found that is no directory is offered for recovery: the deleted files
      when deleted ones are asked for, the live files that have a chain or are empty when normal ones are, and all
      otherwise. */
  lemma WalkOffersItsFiles(v: Volume, entries: seq<Entry>, filter: Candidates.RecoveryFilter, i: nat)
    requires v.Valid() && Run(v, Initial(v)).Ok? && PresentsAll(entries, Run(v, Initial(v)).value.entries)
    requires i < |entries|
    ensures var w := Run(v, Initial(v)).value.entries[i];
      i in Candidates.Traversal(entries, 1, filter) <==>
        && !w.kind.FolderRecord?
        && (filter.OnlyDeleted? ==> w.deleted)
        && (filter.OnlyNormal? ==> !w.deleted && w.kind.FileRecord? && (w.realSize == 0 || w.chain != []))
  {
    var s := Run(v, Initial(v)).value;
    WalkFindsTheRoot(v);
    ParentsAreEarlier(s, i);
    assert ExFatHierarchy.ParentAt(s, i) && Presents(entries[i], s.entries[i]);
    FoldersAreReachable(s, entries, s.entries[i].parentId);
    Candidates.CandidateIff(entries, 1, filter, i);
  }
}
