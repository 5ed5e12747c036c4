/** Selecting what to recover: a guarded traversal of a hierarchy that may hold cycles and repeated ids. */
module Candidates {
  import opened Machine
  import opened ForensicModel
  import opened Sequences
  import opened Sorting

  datatype RecoveryFilter = OnlyDeleted | OnlyNormal | All {
    predicate Matches(e: Entry) {
      if e.IsDirectory() then false
      else
        match this
        case OnlyDeleted => e.status == Deleted
        case OnlyNormal => e.status == Normal
        case All => true
    }
  }

  // ----- what should be collected -----

  /** A step from a directory id to the id of a directory recorded below it. */
  ghost predicate Descends(entries: seq<Entry>, from: U64, to: U64) {
    exists k :: 0 <= k < |entries| && IsSubdirectory(entries[k], from) && entries[k].objectId == to
  }

  predicate IsSubdirectory(e: Entry, parentId: U64) {
    e.parentId == Some(parentId) && e.IsDirectory()
  }

  ghost predicate IsDescent(entries: seq<Entry>, ids: seq<U64>) {
    ids != [] && forall i | 0 <= i < |ids| - 1 :: DescendsAt(entries, ids, i)
  }

  ghost predicate DescendsAt(entries: seq<Entry>, ids: seq<U64>, i: nat)
    requires i + 1 < |ids|
  {
    Descends(entries, ids[i], ids[i + 1])
  }

  /** The id can be reached from the root through directories. */
  ghost predicate Reachable(entries: seq<Entry>, rootId: U64, id: U64) {
    exists ids :: IsDescent(entries, ids) && ids[0] == rootId && ids[|ids| - 1] == id
  }

  ghost predicate IsCandidate(entries: seq<Entry>, rootId: U64, filter: RecoveryFilter, p: nat)
    requires p < |entries|
  {
    entries[p].parentId.Some? && Reachable(entries, rootId, entries[p].parentId.value) && filter.Matches(entries[p])
  }

  predicate InRange(positions: seq<nat>, n: nat) {
    forall i | 0 <= i < |positions| :: positions[i] < n
  }

  /** The positions before n whose entry has this parent, in order. */
  function ChildrenOf(entries: seq<Entry>, id: U64, n: nat): (cs: seq<nat>)
    requires n <= |entries|
    ensures InRange(cs, n) && NoRepeats(cs)
    ensures forall i | 0 <= i < |cs| :: entries[cs[i]].parentId == Some(id)
    ensures forall p: nat | p < n && entries[p].parentId == Some(id) :: p in cs
  {
    if n == 0 then []
    else if entries[n - 1].parentId == Some(id) then ChildrenOf(entries, id, n - 1) + [n - 1]
    else ChildrenOf(entries, id, n - 1)
  }

  function Select(entries: seq<Entry>, positions: seq<nat>): (es: seq<Entry>)
    requires InRange(positions, |entries|)
    ensures |es| == |positions|
  {
    seq(|positions|, i requires 0 <= i < |positions| => entries[positions[i]])
  }

  lemma SelectAppend(entries: seq<Entry>, a: seq<nat>, b: seq<nat>)
    requires InRange(a, |entries|) && InRange(b, |entries|)
    ensures InRange(a + b, |entries|) && Select(entries, a + b) == Select(entries, a) + Select(entries, b)
  {}

  // ----- the collection -----

  function Group(children: map<U64, seq<nat>>, id: U64): seq<nat> {
    if id in children then children[id] else []
  }

  /** The groups of the first n entries. */
  ghost predicate Grouped(entries: seq<Entry>, children: map<U64, seq<nat>>, n: nat)
    requires n <= |entries|
  {
    forall id: U64 :: Group(children, id) == ChildrenOf(entries, id, n)
  }

  method GroupByParent(entries: seq<Entry>) returns (children: map<U64, seq<nat>>)
    ensures Grouped(entries, children, |entries|)
  {
    children := map[];
    for k := 0 to |entries|
      invariant Grouped(entries, children, k)
    {
      var parent := entries[k].parentId;
      GroupOneMore(entries, children, k);
      if parent.Some? {
        children := children[parent.value := Group(children, parent.value) + [k]];
      }
    }
  }

  lemma GroupOneMore(entries: seq<Entry>, children: map<U64, seq<nat>>, k: nat)
    requires k < |entries| && Grouped(entries, children, k)
    ensures var parent := entries[k].parentId;
      Grouped(
        entries,
        if parent.Some? then children[parent.value := Group(children, parent.value) + [k]] else children,
        k + 1)
  {
    var parent := entries[k].parentId;
    var after := if parent.Some? then children[parent.value := Group(children, parent.value) + [k]] else children;
    forall id: U64 ensures Group(after, id) == ChildrenOf(entries, id, k + 1) {
      NextChild(entries, id, k);
      assert Group(children, id) == ChildrenOf(entries, id, k);
    }
  }

  lemma NextChild(entries: seq<Entry>, id: U64, k: nat)
    requires k < |entries|
    ensures ChildrenOf(entries, id, k + 1)
         == ChildrenOf(entries, id, k) + if entries[k].parentId == Some(id) then [k] else []
  {}

  ghost function Universe(entries: seq<Entry>, rootId: U64): set<U64> {
    {rootId} + set e | e in entries :: e.objectId
  }

  /** What the traversal knows between two steps. */
  ghost predicate Progress(entries: seq<Entry>, rootId: U64, filter: RecoveryFilter, visited: set<U64>, stack: seq<U64>,
                           positions: seq<nat>) {
    Sound(entries, rootId, visited, stack) && AllExpanded(entries, visited, stack)
    && CollectedExactly(entries, filter, visited, positions)
  }

  ghost predicate Sound(entries: seq<Entry>, rootId: U64, visited: set<U64>, stack: seq<U64>) {
    && (forall id | id in visited :: Reachable(entries, rootId, id))
    && (forall id | id in stack :: Reachable(entries, rootId, id) && id in Universe(entries, rootId))
    && (rootId in visited || rootId in stack)
  }

  ghost predicate AllExpanded(entries: seq<Entry>, visited: set<U64>, stack: seq<U64>) {
    forall id | id in visited :: Expanded(entries, id, visited, stack)
  }

  ghost predicate Expanded(entries: seq<Entry>, id: U64, visited: set<U64>, stack: seq<U64>) {
    forall e | e in entries && IsSubdirectory(e, id) :: e.objectId in visited || e.objectId in stack
  }

  /** The positions are those of the matching entries whose parent was visited, each once. */
  ghost predicate CollectedExactly(entries: seq<Entry>, filter: RecoveryFilter, visited: set<U64>,
      positions: seq<nat>) {
    && NoRepeats(positions)
    && InRange(positions, |entries|)
    && (forall p: nat | p < |entries| :: p in positions <==> Chosen(entries[p], filter, visited))
  }

  predicate Chosen(e: Entry, filter: RecoveryFilter, visited: set<U64>) {
    e.parentId.Some? && e.parentId.value in visited && filter.Matches(e)
  }

  lemma NothingDone(entries: seq<Entry>, rootId: U64, filter: RecoveryFilter)
    ensures Progress(entries, rootId, filter, {}, [rootId], [])
  {
    assert IsDescent(entries, [rootId]);
  }

  ghost predicate AllKnown(entries: seq<Entry>, rootId: U64, stack: seq<U64>) {
    forall i | 0 <= i < |stack| :: stack[i] in Universe(entries, rootId)
  }

  lemma SubdirectoriesAreKnown(entries: seq<Entry>, rootId: U64, id: U64, rest: seq<U64>)
    requires AllKnown(entries, rootId, rest)
    ensures AllKnown(entries, rootId, rest + DirectoryIds(entries, ChildrenOf(entries, id, |entries|)))
  {
    var cs := ChildrenOf(entries, id, |entries|);
    DirectoryIdsMeaning(entries, cs);
    forall d | d in DirectoryIds(entries, cs) ensures d in Universe(entries, rootId) {
      var i :| 0 <= i < |cs| && entries[cs[i]].IsDirectory() && entries[cs[i]].objectId == d;
      assert entries[cs[i]] in entries;
    }
  }

  /** The matching positions in the order in which the traversal meets them. */
  ghost function VisitOrder(entries: seq<Entry>, rootId: U64, filter: RecoveryFilter, stack: seq<U64>,
      visited: set<U64>)
      : (ps: seq<nat>)
    requires AllKnown(entries, rootId, stack)
    ensures InRange(ps, |entries|)
    decreases Universe(entries, rootId) - visited, |stack|
  {
    if stack == [] then []
    else
      var id, rest := stack[|stack| - 1], stack[..|stack| - 1];
      if id in visited then VisitOrder(entries, rootId, filter, rest, visited)
      else
        var cs := ChildrenOf(entries, id, |entries|);
        SubdirectoriesAreKnown(entries, rootId, id, rest);
        assert id in Universe(entries, rootId) - visited;
        Matching(entries, filter, cs)
        + VisitOrder(entries, rootId, filter, rest + DirectoryIds(entries, cs), visited + {id})
  }

  ghost function Traversal(entries: seq<Entry>, rootId: U64, filter: RecoveryFilter): (ps: seq<nat>)
    ensures InRange(ps, |entries|)
  {
    VisitOrder(entries, rootId, filter, [rootId], {})
  }

  lemma VisitStep(entries: seq<Entry>, rootId: U64, filter: RecoveryFilter, stack: seq<U64>, visited: set<U64>,
                  positions: seq<nat>)
    requires AllKnown(entries, rootId, stack) && stack != []
    ensures var id, rest := stack[|stack| - 1], stack[..|stack| - 1];
      var cs := ChildrenOf(entries, id, |entries|);
      && AllKnown(entries, rootId, rest) && id in Universe(entries, rootId)
      && AllKnown(entries, rootId, rest + DirectoryIds(entries, cs))
      && positions + VisitOrder(entries, rootId, filter, stack, visited) ==
        if id in visited then positions + VisitOrder(entries, rootId, filter, rest, visited)
        else
          (positions + Matching(entries, filter, cs))
          + VisitOrder(entries, rootId, filter, rest + DirectoryIds(entries, cs), visited + {id})
  {
    var id, rest := stack[|stack| - 1], stack[..|stack| - 1];
    var cs := ChildrenOf(entries, id, |entries|);
    SubdirectoriesAreKnown(entries, rootId, id, rest);
    if id !in visited {
      Associates(positions, Matching(entries, filter, cs),
                 VisitOrder(entries, rootId, filter, rest + DirectoryIds(entries, cs), visited + {id}));
    }
  }

  lemma OneLessToVisit(universe: set<U64>, visited: set<U64>, id: U64)
    requires id in universe && id !in visited
    ensures universe - (visited + {id}) < universe - visited
  {
    assert id in universe - visited;
  }

  /** The traversal: an explicit stack of directory ids, each expanded at its first visit only. */
  method Traverse(entries: seq<Entry>, rootId: U64, filter: RecoveryFilter) returns (found: seq<Entry>)
    ensures found == Select(entries, Traversal(entries, rootId, filter))
  {
    var children := GroupByParent(entries);
    found := [];
    ghost var positions: seq<nat> := [];
    var stack := [rootId];
    var visited: set<U64> := {};
    while stack != []
      invariant AllKnown(entries, rootId, stack)
      invariant InRange(positions, |entries|) && found == Select(entries, positions)
      invariant Traversal(entries, rootId, filter) == positions + VisitOrder(entries, rootId, filter, stack, visited)
      decreases Universe(entries, rootId) - visited, |stack|
    {
      VisitStep(entries, rootId, filter, stack, visited, positions);
      var parentId := stack[|stack| - 1];
      stack := stack[..|stack| - 1];
      if parentId in visited {
        continue;
      }
      var cs := Group(children, parentId);
      var dirs, files, chosen := SplitChildren(entries, filter, cs);
      SelectAppend(entries, positions, chosen);
      OneLessToVisit(Universe(entries, rootId), visited, parentId);
      visited := visited + {parentId};
      stack := stack + dirs;
      found := found + files;
      positions := positions + chosen;
    }
    assert positions + [] == positions;
  }

  /** The candidate positions before n, in order. */
  ghost function CandidatePositions(entries: seq<Entry>, rootId: U64, filter: RecoveryFilter, n: nat): (ps: seq<nat>)
    requires n <= |entries|
    ensures InRange(ps, n) && NoRepeats(ps)
    ensures forall p: nat | p < n :: p in ps <==> IsCandidate(entries, rootId, filter, p)
  {
    if n == 0 then []
    else
      CandidatePositions(entries, rootId, filter, n - 1)
      + if IsCandidate(entries, rootId, filter, n - 1) then [n - 1] else []
  }

  lemma SelectAround(entries: seq<Entry>, left: seq<nat>, x: nat, right: seq<nat>)
    requires InRange(left + [x] + right, |entries|)
    ensures InRange(left + right, |entries|) && x < |entries|
    ensures multiset(Select(entries, left + [x] + right))
      == multiset(Select(entries, left + right)) + multiset{entries[x]}
  {
    var all := left + [x] + right;
    assert all[|left|] == x;
    assert forall i | 0 <= i < |left| :: all[i] == left[i];
    assert forall i | 0 <= i < |right| :: all[|left| + 1 + i] == right[i];
    assert Select(entries, all) == Select(entries, left) + [entries[x]] + Select(entries, right);
    SelectAppend(entries, left, right);
  }

  /** Permuted positions select the same entries. */
  lemma {:induction false} SelectPermutes(entries: seq<Entry>, a: seq<nat>, b: seq<nat>)
    requires InRange(a, |entries|) && InRange(b, |entries|) && multiset(a) == multiset(b)
    ensures multiset(Select(entries, a)) == multiset(Select(entries, b))
  {
    if a == [] {
      assert |multiset(b)| == 0;
    } else {
      var front, x := a[..|a| - 1], Last(a);
      assert a == front + [x];
      var left, right := SplitAround(b, x, a);
      RemoveBoth(front, left, x, right);
      SelectAppend(entries, front, [x]);
      SelectAround(entries, left, x, right);
      SelectPermutes(entries, front, left + right);
    }
  }

  /** Entries by their lowercased paths; `lower` stands for the library's lowercase conversion. */
  function ByPath(lower: string -> string): Order<Entry> {
    ByText((e: Entry) => lower(e.path))
  }

  /** The result holds every candidate position once, ordered by lowercased path; equal paths stay in traversal
      order. */
  method CollectRecoverableEntries(entries: seq<Entry>, rootId: U64, filter: RecoveryFilter, lower: string -> string)
      returns (result: seq<Entry>)
    ensures IsStableSort(result, Select(entries, Traversal(entries, rootId, filter)), ByPath(lower))
    ensures multiset(result)
         == multiset(Select(entries, CandidatePositions(entries, rootId, filter, |entries|)))
    ensures forall i, j | 0 <= i < j < |result| :: TextLe(lower(result[i].path), lower(result[j].path))
  {
    var found := Traverse(entries, rootId, filter);
    TraversalIsExact(entries, rootId, filter);
    SameMembers(Traversal(entries, rootId, filter), CandidatePositions(entries, rootId, filter, |entries|));
    SelectPermutes(entries, Traversal(entries, rootId, filter),
                   CandidatePositions(entries, rootId, filter, |entries|));
    ByTextIsPreorder((e: Entry) => lower(e.path));
    SortIsStable(found, ByPath(lower));
    result := Sort(found, ByPath(lower));
    forall i, j | 0 <= i < j < |result| ensures TextLe(lower(result[i].path), lower(result[j].path)) {
      assert ByPath(lower)(result[i], result[j]);
    }
  }

  function DirectoryIds(entries: seq<Entry>, cs: seq<nat>): seq<U64>
    requires InRange(cs, |entries|)
  {
    if cs == [] then []
    else
      var front := DirectoryIds(entries, cs[..|cs| - 1]);
      var e := entries[cs[|cs| - 1]];
      if e.IsDirectory() then front + [e.objectId] else front
  }

  function Matching(entries: seq<Entry>, filter: RecoveryFilter, cs: seq<nat>): (ps: seq<nat>)
    requires InRange(cs, |entries|)
    ensures InRange(ps, |entries|)
  {
    if cs == [] then []
    else
      var front := Matching(entries, filter, cs[..|cs| - 1]);
      if filter.Matches(entries[cs[|cs| - 1]]) then front + [cs[|cs| - 1]] else front
  }

  /** One pass over the children of a directory: subdirectories to push, files to keep. */
  method SplitChildren(entries: seq<Entry>, filter: RecoveryFilter, cs: seq<nat>)
      returns (dirs: seq<U64>, files: seq<Entry>, ghost chosen: seq<nat>)
    requires InRange(cs, |entries|)
    ensures dirs == DirectoryIds(entries, cs) && chosen == Matching(entries, filter, cs)
    ensures files == Select(entries, chosen)
  {
    dirs, files, chosen := [], [], [];
    for i := 0 to |cs|
      invariant dirs == DirectoryIds(entries, cs[..i]) && chosen == Matching(entries, filter, cs[..i])
      invariant files == Select(entries, chosen)
    {
      assert cs[..i + 1][..i] == cs[..i] && cs[i] in cs;
      var entry := entries[cs[i]];
      if entry.IsDirectory() {
        dirs := dirs + [entry.objectId];
        continue;
      }
      if filter.Matches(entry) {
        files := files + [entry];
        chosen := chosen + [cs[i]];
      }
    }
    assert cs[..|cs|] == cs;
  }

  // ----- why it is exact -----

  lemma ReachableStep(entries: seq<Entry>, rootId: U64, from: U64, to: U64)
    requires Reachable(entries, rootId, from) && Descends(entries, from, to)
    ensures Reachable(entries, rootId, to)
  {
    var ids :| IsDescent(entries, ids) && ids[0] == rootId && ids[|ids| - 1] == from;
    var longer := ids + [to];
    forall i | 0 <= i < |longer| - 1 ensures DescendsAt(entries, longer, i) {
      if i < |ids| - 1 {
        assert DescendsAt(entries, ids, i);
      }
    }
    assert IsDescent(entries, longer);
  }

  lemma {:induction false} DirectoryIdsMeaning(entries: seq<Entry>, cs: seq<nat>)
    requires InRange(cs, |entries|)
    ensures forall id :: id in DirectoryIds(entries, cs) <==>
      exists i :: 0 <= i < |cs| && entries[cs[i]].IsDirectory() && entries[cs[i]].objectId == id
  {
    if cs != [] {
      DirectoryIdsMeaning(entries, cs[..|cs| - 1]);
    }
  }

  lemma {:induction false} MatchingMeaning(entries: seq<Entry>, filter: RecoveryFilter, cs: seq<nat>)
    requires InRange(cs, |entries|) && NoRepeats(cs)
    ensures forall p: nat | p < |entries| ::
      p in Matching(entries, filter, cs) <==> p in cs && filter.Matches(entries[p])
    ensures NoRepeats(Matching(entries, filter, cs))
  {
    if cs != [] {
      var front := cs[..|cs| - 1];
      assert cs == front + [cs[|cs| - 1]];
      MatchingMeaning(entries, filter, front);
    }
  }

  lemma DropVisited(entries: seq<Entry>, rootId: U64, filter: RecoveryFilter, visited: set<U64>, stack: seq<U64>,
                    positions: seq<nat>)
    requires Progress(entries, rootId, filter, visited, stack, positions)
    requires stack != [] && stack[|stack| - 1] in visited
    ensures Progress(entries, rootId, filter, visited, stack[..|stack| - 1], positions)
  {
    assert stack == stack[..|stack| - 1] + [stack[|stack| - 1]];
    forall id | id in visited ensures Expanded(entries, id, visited, stack[..|stack| - 1]) {
      assert Expanded(entries, id, visited, stack);
    }
  }

  lemma VisitKeepsProgress(entries: seq<Entry>, rootId: U64, filter: RecoveryFilter, visited: set<U64>, stack: seq<U64>,
                           positions: seq<nat>, dirs: seq<U64>, chosen: seq<nat>)
    requires Progress(entries, rootId, filter, visited, stack, positions)
    requires stack != [] && stack[|stack| - 1] !in visited
    requires dirs == DirectoryIds(entries, ChildrenOf(entries, stack[|stack| - 1], |entries|))
    requires chosen == Matching(entries, filter, ChildrenOf(entries, stack[|stack| - 1], |entries|))
    ensures Progress(entries, rootId, filter,
      visited + {stack[|stack| - 1]}, stack[..|stack| - 1] + dirs, positions + chosen)
  {
    var id, rest := stack[|stack| - 1], stack[..|stack| - 1];
    assert stack == rest + [id];
    VisitStaysSound(entries, rootId, visited, rest, id, dirs);
    VisitExpands(entries, visited, rest, id, dirs);
    VisitCollects(entries, filter, visited, id, positions, chosen);
  }

  lemma VisitStaysSound(entries: seq<Entry>, rootId: U64, visited: set<U64>, rest: seq<U64>, id: U64, dirs: seq<U64>)
    requires Sound(entries, rootId, visited, rest + [id])
      && dirs == DirectoryIds(entries, ChildrenOf(entries, id, |entries|))
    ensures Sound(entries, rootId, visited + {id}, rest + dirs)
  {
    assert id in rest + [id] && forall d | d in rest :: d in rest + [id];
    PushReaches(entries, rootId, id, dirs);
  }

  lemma VisitExpands(entries: seq<Entry>, visited: set<U64>, rest: seq<U64>, id: U64, dirs: seq<U64>)
    requires AllExpanded(entries, visited, rest + [id])
      && dirs == DirectoryIds(entries, ChildrenOf(entries, id, |entries|))
    ensures AllExpanded(entries, visited + {id}, rest + dirs)
  {
    forall v | v in visited + {id} ensures Expanded(entries, v, visited + {id}, rest + dirs) {
      if v == id {
        PushExpands(entries, id, dirs);
      } else {
        StaysExpanded(entries, v, visited, rest, id, dirs);
      }
    }
  }

  lemma StaysExpanded(entries: seq<Entry>, v: U64, visited: set<U64>, rest: seq<U64>, id: U64, dirs: seq<U64>)
    requires Expanded(entries, v, visited, rest + [id])
    ensures Expanded(entries, v, visited + {id}, rest + dirs)
  {}

  lemma PushReaches(entries: seq<Entry>, rootId: U64, id: U64, dirs: seq<U64>)
    requires Reachable(entries, rootId, id) && dirs == DirectoryIds(entries, ChildrenOf(entries, id, |entries|))
    ensures forall d | d in dirs :: Reachable(entries, rootId, d) && d in Universe(entries, rootId)
  {
    var cs := ChildrenOf(entries, id, |entries|);
    DirectoryIdsMeaning(entries, cs);
    forall d | d in dirs ensures Reachable(entries, rootId, d) && d in Universe(entries, rootId) {
      var i :| 0 <= i < |cs| && entries[cs[i]].IsDirectory() && entries[cs[i]].objectId == d;
      assert cs[i] in cs && IsSubdirectory(entries[cs[i]], id);
      ReachableStep(entries, rootId, id, d);
    }
  }

  lemma PushExpands(entries: seq<Entry>, id: U64, dirs: seq<U64>)
    requires dirs == DirectoryIds(entries, ChildrenOf(entries, id, |entries|))
    ensures forall e | e in entries && IsSubdirectory(e, id) :: e.objectId in dirs
  {
    var cs := ChildrenOf(entries, id, |entries|);
    DirectoryIdsMeaning(entries, cs);
    forall e | e in entries && IsSubdirectory(e, id) ensures e.objectId in dirs {
      var p: nat :| p < |entries| && entries[p] == e;
      assert p in cs;
      var i :| 0 <= i < |cs| && cs[i] == p;
      assert entries[cs[i]].IsDirectory() && entries[cs[i]].objectId == e.objectId;
    }
  }

  lemma VisitCollects(entries: seq<Entry>, filter: RecoveryFilter, visited: set<U64>, id: U64, positions: seq<nat>,
                      chosen: seq<nat>)
    requires CollectedExactly(entries, filter, visited, positions) && id !in visited
    requires chosen == Matching(entries, filter, ChildrenOf(entries, id, |entries|))
    ensures CollectedExactly(entries, filter, visited + {id}, positions + chosen)
  {
    var cs := ChildrenOf(entries, id, |entries|);
    MatchingMeaning(entries, filter, cs);
    forall p | p in chosen ensures p !in positions {
      assert p in cs && entries[p].parentId == Some(id);
      assert p in positions <==> Chosen(entries[p], filter, visited);
    }
    forall i, j | 0 <= i < j < |positions + chosen| ensures (positions + chosen)[i] != (positions + chosen)[j] {
      if i < |positions| <= j {
        assert positions[i] in positions && chosen[j - |positions|] in chosen;
      }
    }
    forall p: nat | p < |entries| ensures p in positions + chosen <==> Chosen(entries[p], filter, visited + {id}) {
      assert p in positions <==> Chosen(entries[p], filter, visited);
      assert p in cs <==> entries[p].parentId == Some(id);
    }
  }

  /** A set that contains the root and is closed under descent contains everything reachable. */
  lemma {:induction false} ClosedIsComplete(entries: seq<Entry>, visited: set<U64>, ids: seq<U64>)
    requires IsDescent(entries, ids) && ids[0] in visited
    requires forall id | id in visited :: Expanded(entries, id, visited, [])
    ensures ids[|ids| - 1] in visited
    decreases |ids|
  {
    if |ids| > 1 {
      assert DescendsAt(entries, ids, 0);
      var k :| 0 <= k < |entries| && IsSubdirectory(entries[k], ids[0]) && entries[k].objectId == ids[1];
      assert Expanded(entries, ids[0], visited, []) && entries[k] in entries;
      var rest := ids[1..];
      forall i | 0 <= i < |rest| - 1 ensures DescendsAt(entries, rest, i) {
        assert DescendsAt(entries, ids, i + 1);
      }
      ClosedIsComplete(entries, visited, rest);
    }
  }

  lemma VisitedIsReachable(entries: seq<Entry>, rootId: U64, filter: RecoveryFilter, visited: set<U64>,
      positions: seq<nat>)
    requires Progress(entries, rootId, filter, visited, [], positions)
    ensures forall p: nat | p < |entries| :: p in positions <==> IsCandidate(entries, rootId, filter, p)
  {
    forall p: nat | p < |entries| ensures p in positions <==> IsCandidate(entries, rootId, filter, p) {
      assert p in positions <==> Chosen(entries[p], filter, visited);
      if IsCandidate(entries, rootId, filter, p) {
        var ids :| IsDescent(entries, ids) && ids[0] == rootId && ids[|ids| - 1] == entries[p].parentId.value;
        ClosedIsComplete(entries, visited, ids);
      }
    }
  }

  lemma {:induction false} VisitIsExact(entries: seq<Entry>, rootId: U64, filter: RecoveryFilter, visited: set<U64>,
                                        stack: seq<U64>, positions: seq<nat>)
    requires Progress(entries, rootId, filter, visited, stack, positions) && AllKnown(entries, rootId, stack)
    ensures var all := positions + VisitOrder(entries, rootId, filter, stack, visited);
      NoRepeats(all) && forall p: nat | p < |entries| :: p in all <==> IsCandidate(entries, rootId, filter, p)
    decreases Universe(entries, rootId) - visited, |stack|
  {
    if stack == [] {
      VisitedIsReachable(entries, rootId, filter, visited, positions);
      assert positions + [] == positions;
    } else {
      var id, rest := stack[|stack| - 1], stack[..|stack| - 1];
      if id in visited {
        DropVisited(entries, rootId, filter, visited, stack, positions);
        VisitIsExact(entries, rootId, filter, visited, rest, positions);
      } else {
        var cs := ChildrenOf(entries, id, |entries|);
        var dirs, chosen := DirectoryIds(entries, cs), Matching(entries, filter, cs);
        VisitKeepsProgress(entries, rootId, filter, visited, stack, positions, dirs, chosen);
        SubdirectoriesAreKnown(entries, rootId, id, rest);
        assert id in Universe(entries, rootId) - visited;
        VisitIsExact(entries, rootId, filter, visited + {id}, rest + dirs, positions + chosen);
        Associates(positions, chosen, VisitOrder(entries, rootId, filter, rest + dirs, visited + {id}));
      }
    }
  }

  /** The traversal meets exactly the candidate positions, each once, on any entries. */
  lemma TraversalIsExact(entries: seq<Entry>, rootId: U64, filter: RecoveryFilter)
    ensures NoRepeats(Traversal(entries, rootId, filter))
    ensures forall p: nat | p < |entries| ::
      p in Traversal(entries, rootId, filter) <==> IsCandidate(entries, rootId, filter, p)
  {
    NothingDone(entries, rootId, filter);
    VisitIsExact(entries, rootId, filter, {}, [rootId], []);
    assert [] + Traversal(entries, rootId, filter) == Traversal(entries, rootId, filter);
  }

  // ----- candidates spelled out -----

  /** The entry is the directory with this id, recorded below the directory with id `from`. */
  ghost predicate IsBelow(e: Entry, from: U64, id: U64) {
    e.kind == Directory && e.objectId == id && e.parentId == Some(from)
  }

  ghost predicate StepsFrom(entries: seq<Entry>, rootId: U64, k: nat, from: U64, id: U64) {
    k < |entries| && IsBelow(entries[k], from, id) && Reachable(entries, rootId, from)
  }

  /** An id is reachable exactly when it is the root's or that of a directory below a reachable id. */
  lemma ReachableIff(entries: seq<Entry>, rootId: U64, id: U64)
    ensures Reachable(entries, rootId, id)
       <==> id == rootId || exists k: nat, from :: StepsFrom(entries, rootId, k, from, id)
  {
    if id == rootId {
      assert IsDescent(entries, [id]) && [id][0] == rootId;
    }
    forall k: nat, from | StepsFrom(entries, rootId, k, from, id) ensures Reachable(entries, rootId, id) {
      assert IsSubdirectory(entries[k], from);
      ReachableStep(entries, rootId, from, id);
    }
    if Reachable(entries, rootId, id) && id != rootId {
      var ids :| IsDescent(entries, ids) && ids[0] == rootId && ids[|ids| - 1] == id;
      var front, from := ids[..|ids| - 1], ids[|ids| - 2];
      assert DescendsAt(entries, ids, |ids| - 2);
      forall i: nat | i < |front| - 1 ensures DescendsAt(entries, front, i) {
        assert DescendsAt(entries, ids, i);
      }
      assert IsDescent(entries, front) && front[0] == rootId && front[|front| - 1] == from;
      var k: nat :| k < |entries| && IsSubdirectory(entries[k], from) && entries[k].objectId == id;
      assert StepsFrom(entries, rootId, k, from, id);
    }
  }

  /** What is offered for recovery: anything but a directory, below a reachable directory, deleted if only deleted
      objects are asked for, and normal if only normal ones are. */
  lemma CandidateIff(entries: seq<Entry>, rootId: U64, filter: RecoveryFilter, p: nat)
    requires p < |entries|
    ensures p in Traversal(entries, rootId, filter) <==>
      && entries[p].kind != Directory
      && entries[p].parentId.Some? && Reachable(entries, rootId, entries[p].parentId.value)
      && (filter == OnlyDeleted ==> entries[p].status == Deleted)
      && (filter == OnlyNormal ==> entries[p].status == Normal)
  {
    TraversalIsExact(entries, rootId, filter);
  }
}
