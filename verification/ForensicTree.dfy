/** The navigable tree of a model, built by unguarded recursion over the entry list. */
module ForensicTree {
  import opened Machine
  import opened ForensicModel
  import opened Sequences

  datatype Node = Node(objectId: U64, name: string, path: string, kind: EntryKind, status: Status, children: seq<Node>)

  // ----- which entries hang below which -----

  /** No parent, its own parent, or a parent that was not discovered. */
  predicate IsRoot(entries: seq<Entry>, x: nat)
    requires x < |entries|
  {
    var p := entries[x].parentId;
    p.None? || p == Some(entries[x].objectId) || forall k | 0 <= k < |entries| :: entries[k].objectId != p.value
  }

  predicate IsChild(entries: seq<Entry>, x: nat, c: nat)
    requires x < |entries| && c < |entries|
  {
    && entries[x].IsDirectory() && entries[c].objectId != entries[x].objectId
    && entries[c].parentId == Some(entries[x].objectId)
  }

  /** Positions from a root downwards, each a child of the one before. */
  ghost predicate IsPath(entries: seq<Entry>, path: seq<nat>) {
    && path != [] && (forall i | 0 <= i < |path| :: path[i] < |entries|)
    && IsRoot(entries, path[0])
    && forall i | 0 <= i < |path| - 1 :: Linked(entries, path, i)
  }

  ghost predicate Linked(entries: seq<Entry>, path: seq<nat>, i: nat)
    requires i + 1 < |path| && forall k | 0 <= k < |path| :: path[k] < |entries|
  {
    IsChild(entries, path[i], path[i + 1])
  }

  ghost predicate DistinctIds(entries: seq<Entry>) {
    forall i, j | 0 <= i < j < |entries| :: entries[i].objectId != entries[j].objectId
  }

  lemma PathPrefix(entries: seq<Entry>, path: seq<nat>, n: nat)
    requires IsPath(entries, path) && 1 <= n <= |path|
    ensures IsPath(entries, path[..n])
  {
    forall i: nat | i < n - 1 ensures Linked(entries, path[..n], i) {
      assert Linked(entries, path, i);
    }
  }

  lemma PathExtends(entries: seq<Entry>, path: seq<nat>, c: nat)
    requires IsPath(entries, path) && c < |entries| && IsChild(entries, Last(path), c)
    ensures IsPath(entries, path + [c])
  {
    forall i: nat | i < |path| ensures Linked(entries, path + [c], i) {
      if i < |path| - 1 {
        assert Linked(entries, path, i);
      }
    }
  }

  lemma PathLeavesRoots(entries: seq<Entry>, path: seq<nat>)
    requires IsPath(entries, path)
    ensures |path| > 1 ==> !IsRoot(entries, Last(path))
  {
    if |path| > 1 {
      assert Linked(entries, path, |path| - 2);
    }
  }

  /** With distinct ids there is at most one way down to an entry. */
  lemma {:induction false} PathIsUnique(entries: seq<Entry>, p: seq<nat>, q: seq<nat>)
    requires DistinctIds(entries) && IsPath(entries, p) && IsPath(entries, q) && Last(p) == Last(q)
    ensures p == q
    decreases |p|
  {
    if |p| > 1 && |q| > 1 {
      assert Linked(entries, p, |p| - 2) && Linked(entries, q, |q| - 2);
      PathPrefix(entries, p, |p| - 1);
      PathPrefix(entries, q, |q| - 1);
      PathIsUnique(entries, p[..|p| - 1], q[..|q| - 1]);
      assert p == p[..|p| - 1] + [Last(p)] && q == q[..|q| - 1] + [Last(q)];
    } else if |p| > 1 {
      PathLeavesRoots(entries, p);
    } else if |q| > 1 {
      PathLeavesRoots(entries, q);
    }
  }

  /** No path down from a root meets an entry twice. */
  ghost predicate Acyclic(entries: seq<Entry>) {
    forall path: seq<nat> :: IsPath(entries, path) ==> NoRepeats(path)
  }

  lemma PathFits(entries: seq<Entry>, path: seq<nat>)
    requires Acyclic(entries) && IsPath(entries, path)
    ensures |path| <= |entries|
  {
    NoRepeatsBound(path, |entries|);
  }

  /** With distinct ids nothing reachable from a root lies on a cycle, whatever cycles the hierarchy has elsewhere. */
  lemma DistinctIsAcyclic(entries: seq<Entry>)
    requires DistinctIds(entries)
    ensures Acyclic(entries)
  {
    forall path: seq<nat> | IsPath(entries, path) ensures NoRepeats(path) {
      forall i: nat, j: nat | i < j < |path| ensures path[i] != path[j] {
        if path[i] == path[j] {
          PathPrefix(entries, path, i + 1);
          PathPrefix(entries, path, j + 1);
          PathIsUnique(entries, path[..i + 1], path[..j + 1]);
          assert false;
        }
      }
    }
  }

  /** Every child ranks above its parent. */
  ghost predicate Ranked(entries: seq<Entry>, rank: U64 -> int) {
    forall x: nat, c: nat | x < |entries| && c < |entries| && IsChild(entries, x, c) ::
      rank(entries[x].objectId) < rank(entries[c].objectId)
  }

  lemma {:induction false} RanksClimb(entries: seq<Entry>, rank: U64 -> int, path: seq<nat>, i: nat, j: nat)
    requires Ranked(entries, rank) && IsPath(entries, path) && i < j < |path|
    ensures rank(entries[path[i]].objectId) < rank(entries[path[j]].objectId)
    decreases j - i
  {
    assert Linked(entries, path, j - 1);
    if i < j - 1 {
      RanksClimb(entries, rank, path, i, j - 1);
    }
  }

  /** Ids may repeat, as they do for objects with several names, if the hierarchy of ids itself has no cycle. */
  lemma RankedIsAcyclic(entries: seq<Entry>, rank: U64 -> int)
    requires Ranked(entries, rank)
    ensures Acyclic(entries)
  {
    forall path: seq<nat> | IsPath(entries, path) ensures NoRepeats(path) {
      forall i: nat, j: nat | i < j < |path| ensures path[i] != path[j] {
        RanksClimb(entries, rank, path, i, j);
      }
    }
  }

  // ----- the tree -----

  /** The node of the last entry of `path`. */
  ghost function NodeAt(entries: seq<Entry>, path: seq<nat>): Node
    requires Acyclic(entries) && IsPath(entries, path)
    decreases |entries| - |path|, |entries| + 1
  {
    PathFits(entries, path);
    var e := entries[Last(path)];
    Node(e.objectId, e.name, e.path, e.kind, e.status, NodesBelow(entries, path, 0))
  }

  /** The nodes of the children at position k or later. */
  ghost function NodesBelow(entries: seq<Entry>, path: seq<nat>, k: nat): seq<Node>
    requires Acyclic(entries) && IsPath(entries, path) && k <= |entries|
    decreases |entries| - |path|, |entries| - k
  {
    PathFits(entries, path);
    if k == |entries| then []
    else if IsChild(entries, Last(path), k) then
      PathExtends(entries, path, k);
      PathFits(entries, path + [k]);
      [NodeAt(entries, path + [k])] + NodesBelow(entries, path, k + 1)
    else NodesBelow(entries, path, k + 1)
  }

  /** The nodes of the roots at position k or later. */
  ghost function RootsFrom(entries: seq<Entry>, k: nat): seq<Node>
    requires Acyclic(entries) && k <= |entries|
    decreases |entries| - k
  {
    if k == |entries| then []
    else if IsRoot(entries, k) then [NodeAt(entries, [k])] + RootsFrom(entries, k + 1)
    else RootsFrom(entries, k + 1)
  }

  /** `above` are the positions of the calls in progress; the recursion itself has no guard against cycles. */
  method BuildNode(entry: Entry, entries: seq<Entry>, ghost above: seq<nat>, ghost x: nat) returns (node: Node)
    requires Acyclic(entries) && x < |entries| && entries[x] == entry && IsPath(entries, above + [x])
    ensures node == NodeAt(entries, above + [x])
    decreases |entries| - |above|
  {
    ghost var path := above + [x];
    PathFits(entries, path);
    var children: seq<Node> := [];
    if entry.kind == Directory {
      for k := 0 to |entries|
        invariant NodesBelow(entries, path, 0) == children + NodesBelow(entries, path, k)
      {
        var child := entries[k];
        if child.objectId == entry.objectId {
          continue;
        }
        if child.parentId == Some(entry.objectId) {
          PathExtends(entries, path, k);
          PathFits(entries, path + [k]);
          var below := BuildNode(child, entries, path, k);
          children := children + [below];
        }
      }
    } else {
      NothingBelow(entries, path, 0);
    }
    assert children + [] == children;
    node := Node(entry.objectId, entry.name, entry.path, entry.kind, entry.status, children);
  }

  lemma {:induction false} NothingBelow(entries: seq<Entry>, path: seq<nat>, k: nat)
    requires Acyclic(entries) && IsPath(entries, path) && k <= |entries| && !entries[Last(path)].IsDirectory()
    ensures NodesBelow(entries, path, k) == []
    decreases |entries| - k
  {
    if k < |entries| {
      NothingBelow(entries, path, k + 1);
    }
  }

  lemma NextRoot(entries: seq<Entry>, roots: seq<Node>, k: nat)
    requires Acyclic(entries) && k < |entries|
    ensures IsRoot(entries, k) ==> IsPath(entries, [k])
    ensures roots + RootsFrom(entries, k)
         == (if IsRoot(entries, k) then roots + [NodeAt(entries, [k])] else roots) + RootsFrom(entries, k + 1)
  {
    if IsRoot(entries, k) {
      Associates(roots, [NodeAt(entries, [k])], RootsFrom(entries, k + 1));
    }
  }

  method FromEntries(entries: seq<Entry>) returns (roots: seq<Node>)
    requires Acyclic(entries)
    ensures roots == RootsFrom(entries, 0)
  {
    roots := [];
    for k := 0 to |entries|
      invariant RootsFrom(entries, 0) == roots + RootsFrom(entries, k)
    {
      var entry := entries[k];
      var parentId := entry.parentId;
      var isSelfParent := parentId == Some(entry.objectId);
      var hasParent := parentId.Some? && exists c | 0 <= c < |entries| :: entries[c].objectId == parentId.value;
      NextRoot(entries, roots, k);
      if parentId.None? || isSelfParent || !hasParent {
        assert [] + [k] == [k];
        var root := BuildNode(entry, entries, [], k);
        roots := roots + [root];
      }
    }
    assert roots + [] == roots;
  }

  // ----- what the tree holds -----

  /** All nodes, each before the nodes below it. */
  function Preorder(node: Node): seq<Node> {
    [node] + PreorderAll(node.children)
  }

  function PreorderAll(nodes: seq<Node>): seq<Node> {
    if nodes == [] then [] else Preorder(nodes[0]) + PreorderAll(nodes[1..])
  }

  /** The paths that start with `path`, in tree order. */
  ghost function PathsAt(entries: seq<Entry>, path: seq<nat>): seq<seq<nat>>
    requires Acyclic(entries) && IsPath(entries, path)
    decreases |entries| - |path|, |entries| + 1
  {
    PathFits(entries, path);
    [path] + PathsBelow(entries, path, 0)
  }

  ghost function PathsBelow(entries: seq<Entry>, path: seq<nat>, k: nat): seq<seq<nat>>
    requires Acyclic(entries) && IsPath(entries, path) && k <= |entries|
    decreases |entries| - |path|, |entries| - k
  {
    PathFits(entries, path);
    if k == |entries| then []
    else if IsChild(entries, Last(path), k) then
      PathExtends(entries, path, k);
      PathFits(entries, path + [k]);
      PathsAt(entries, path + [k]) + PathsBelow(entries, path, k + 1)
    else PathsBelow(entries, path, k + 1)
  }

  ghost function PathsFrom(entries: seq<Entry>, k: nat): seq<seq<nat>>
    requires Acyclic(entries) && k <= |entries|
    decreases |entries| - k
  {
    if k == |entries| then []
    else if IsRoot(entries, k) then PathsAt(entries, [k]) + PathsFrom(entries, k + 1)
    else PathsFrom(entries, k + 1)
  }

  ghost predicate AllPaths(entries: seq<Entry>, paths: seq<seq<nat>>) {
    forall q | q in paths :: IsPath(entries, q)
  }

  ghost function NodesAt(entries: seq<Entry>, paths: seq<seq<nat>>): (nodes: seq<Node>)
    requires Acyclic(entries) && AllPaths(entries, paths)
    ensures |nodes| == |paths|
  {
    seq(|paths|, i requires 0 <= i < |paths| => assert paths[i] in paths; NodeAt(entries, paths[i]))
  }

  /** Enumerates a path and its extensions exactly once. */
  lemma {:induction false} PathsAtMeaning(entries: seq<Entry>, path: seq<nat>)
    requires Acyclic(entries) && IsPath(entries, path)
    ensures forall q :: q in PathsAt(entries, path) <==> IsPath(entries, q) && path <= q
    ensures NoRepeats(PathsAt(entries, path))
    decreases |entries| - |path|, |entries| + 1
  {
    PathFits(entries, path);
    PathsBelowMeaning(entries, path, 0);
    NoRepeatsAppend([path], PathsBelow(entries, path, 0));
    forall q ensures q in PathsAt(entries, path) <==> IsPath(entries, q) && path <= q {
      assert q in PathsBelow(entries, path, 0) <==> Below(entries, path, 0, q);
      assert path <= q <==> path == q || path < q;
    }
  }

  ghost predicate Below(entries: seq<Entry>, path: seq<nat>, k: nat, q: seq<nat>) {
    IsPath(entries, q) && path < q && q[|path|] >= k
  }

  lemma {:induction false} PathsBelowMeaning(entries: seq<Entry>, path: seq<nat>, k: nat)
    requires Acyclic(entries) && IsPath(entries, path) && k <= |entries|
    ensures forall q :: q in PathsBelow(entries, path, k) <==> Below(entries, path, k, q)
    ensures NoRepeats(PathsBelow(entries, path, k))
    decreases |entries| - |path|, |entries| - k
  {
    PathFits(entries, path);
    if k < |entries| {
      PathsBelowMeaning(entries, path, k + 1);
      if IsChild(entries, Last(path), k) {
        PathExtends(entries, path, k);
        PathFits(entries, path + [k]);
        PathsAtMeaning(entries, path + [k]);
        forall q ensures Below(entries, path, k, q)
                    <==> Below(entries, path, k + 1, q) || (IsPath(entries, q) && path + [k] <= q) {
          StepsThrough(path, k, q);
        }
        forall q | q in PathsAt(entries, path + [k]) ensures q !in PathsBelow(entries, path, k + 1) {
          StepsThrough(path, k, q);
        }
        NoRepeatsAppend(PathsAt(entries, path + [k]), PathsBelow(entries, path, k + 1));
      } else {
        forall q ensures Below(entries, path, k, q) <==> Below(entries, path, k + 1, q) {
          if Below(entries, path, k, q) {
            assert Linked(entries, q, |path| - 1);
          }
        }
      }
    }
  }

  lemma StepsThrough(path: seq<nat>, k: nat, q: seq<nat>)
    ensures path + [k] <= q <==> path < q && q[|path|] == k
  {}

  lemma {:induction false} PathsFromMeaning(entries: seq<Entry>, k: nat)
    requires Acyclic(entries) && k <= |entries|
    ensures forall q :: q in PathsFrom(entries, k) <==> IsPath(entries, q) && q[0] >= k
    ensures NoRepeats(PathsFrom(entries, k))
    decreases |entries| - k
  {
    if k < |entries| {
      PathsFromMeaning(entries, k + 1);
      if IsRoot(entries, k) {
        PathsAtMeaning(entries, [k]);
        NoRepeatsAppend(PathsAt(entries, [k]), PathsFrom(entries, k + 1));
      }
    }
  }

  lemma PreorderOfFirst(first: Node, rest: seq<Node>)
    ensures PreorderAll([first] + rest) == Preorder(first) + PreorderAll(rest)
  {
    assert ([first] + rest)[1..] == rest;
  }

  lemma {:induction false} NodesOfPaths(entries: seq<Entry>, path: seq<nat>)
    requires Acyclic(entries) && IsPath(entries, path)
    ensures AllPaths(entries, PathsAt(entries, path))
    ensures Preorder(NodeAt(entries, path)) == NodesAt(entries, PathsAt(entries, path))
    decreases |entries| - |path|, |entries| + 1
  {
    PathFits(entries, path);
    PathsAtMeaning(entries, path);
    NodesOfPathsBelow(entries, path, 0);
  }

  lemma {:induction false} NodesOfPathsBelow(entries: seq<Entry>, path: seq<nat>, k: nat)
    requires Acyclic(entries) && IsPath(entries, path) && k <= |entries|
    ensures AllPaths(entries, PathsBelow(entries, path, k))
    ensures PreorderAll(NodesBelow(entries, path, k)) == NodesAt(entries, PathsBelow(entries, path, k))
    decreases |entries| - |path|, |entries| - k
  {
    PathFits(entries, path);
    PathsBelowMeaning(entries, path, k);
    if k < |entries| {
      NodesOfPathsBelow(entries, path, k + 1);
      if IsChild(entries, Last(path), k) {
        PathExtends(entries, path, k);
        PathFits(entries, path + [k]);
        NodesOfPaths(entries, path + [k]);
        PreorderOfFirst(NodeAt(entries, path + [k]), NodesBelow(entries, path, k + 1));
        NodesAtAppend(entries, PathsAt(entries, path + [k]), PathsBelow(entries, path, k + 1));
      }
    }
  }

  lemma NodesAtAppend(entries: seq<Entry>, a: seq<seq<nat>>, b: seq<seq<nat>>)
    requires Acyclic(entries) && AllPaths(entries, a) && AllPaths(entries, b)
    ensures AllPaths(entries, a + b) && NodesAt(entries, a + b) == NodesAt(entries, a) + NodesAt(entries, b)
  {}

  lemma JoinNodes(entries: seq<Entry>, path: seq<nat>, nodes: seq<Node>, paths: seq<seq<nat>>)
    requires Acyclic(entries) && IsPath(entries, path) && AllPaths(entries, paths)
    requires PreorderAll(nodes) == NodesAt(entries, paths)
    ensures AllPaths(entries, PathsAt(entries, path) + paths)
    ensures PreorderAll([NodeAt(entries, path)] + nodes) == NodesAt(entries, PathsAt(entries, path) + paths)
  {
    NodesOfPaths(entries, path);
    PreorderOfFirst(NodeAt(entries, path), nodes);
    NodesAtAppend(entries, PathsAt(entries, path), paths);
  }

  lemma {:induction false} NodesOfForest(entries: seq<Entry>, k: nat)
    requires Acyclic(entries) && k <= |entries|
    ensures AllPaths(entries, PathsFrom(entries, k))
    ensures PreorderAll(RootsFrom(entries, k)) == NodesAt(entries, PathsFrom(entries, k))
    decreases |entries| - k
  {
    if k < |entries| {
      NodesOfForest(entries, k + 1);
      if IsRoot(entries, k) {
        JoinNodes(entries, [k], RootsFrom(entries, k + 1), PathsFrom(entries, k + 1));
      }
    }
  }

  /** The parent chain of c reaches a root through directories only. */
  ghost predicate Attached(entries: seq<Entry>, c: nat) {
    exists path: seq<nat> :: IsPath(entries, path) && Last(path) == c
  }

  ghost predicate HasNode(nodes: seq<Node>, id: U64) {
    exists i :: 0 <= i < |nodes| && nodes[i].objectId == id
  }

  ghost predicate Mirrors(n: Node, e: Entry) {
    n.objectId == e.objectId && n.name == e.name && n.path == e.path && n.kind == e.kind && n.status == e.status
  }

  /** Node i is the node of path i, and the paths are all the paths there are. */
  ghost predicate Labelled(entries: seq<Entry>, nodes: seq<Node>, paths: seq<seq<nat>>) {
    && |nodes| == |paths| && NoRepeats(paths)
    && (forall i | 0 <= i < |nodes| :: LabelledAt(entries, nodes[i], paths[i]))
    && (forall path: seq<nat> :: IsPath(entries, path) ==> path in paths)
  }

  ghost predicate LabelledAt(entries: seq<Entry>, n: Node, path: seq<nat>) {
    IsPath(entries, path) && Mirrors(n, entries[Last(path)])
  }

  ghost predicate ShowsEntry(entries: seq<Entry>, n: Node) {
    exists path :: LabelledAt(entries, n, path)
  }

  lemma ForestIsLabelled(entries: seq<Entry>)
    requires Acyclic(entries)
    ensures Labelled(entries, PreorderAll(RootsFrom(entries, 0)), PathsFrom(entries, 0))
  {
    var paths, nodes := PathsFrom(entries, 0), PreorderAll(RootsFrom(entries, 0));
    NodesOfForest(entries, 0);
    PathsFromMeaning(entries, 0);
    forall i | 0 <= i < |nodes| ensures LabelledAt(entries, nodes[i], paths[i]) {
      assert paths[i] in paths && nodes[i] == NodeAt(entries, paths[i]);
    }
  }

  lemma LabelsDiffer(entries: seq<Entry>, nodes: seq<Node>, paths: seq<seq<nat>>, i: nat, j: nat)
    requires DistinctIds(entries) && Labelled(entries, nodes, paths) && i < j < |nodes|
    ensures nodes[i].objectId != nodes[j].objectId
  {
    assert LabelledAt(entries, nodes[i], paths[i]) && LabelledAt(entries, nodes[j], paths[j]);
    if Last(paths[i]) == Last(paths[j]) {
      PathIsUnique(entries, paths[i], paths[j]);
    }
  }

  lemma LabelIffAttached(entries: seq<Entry>, nodes: seq<Node>, paths: seq<seq<nat>>, c: nat)
    requires DistinctIds(entries) && Labelled(entries, nodes, paths) && c < |entries|
    ensures HasNode(nodes, entries[c].objectId) <==> Attached(entries, c)
  {
    if Attached(entries, c) {
      var path: seq<nat> :| IsPath(entries, path) && Last(path) == c;
      var i :| 0 <= i < |paths| && paths[i] == path;
      assert LabelledAt(entries, nodes[i], paths[i]);
    }
    if i :| 0 <= i < |nodes| && nodes[i].objectId == entries[c].objectId {
      assert LabelledAt(entries, nodes[i], paths[i]);
      assert Last(paths[i]) == c;
    }
  }

  /** Some entry with this id is attached. */
  ghost predicate AttachedId(entries: seq<Entry>, id: U64) {
    exists c :: 0 <= c < |entries| && entries[c].objectId == id && Attached(entries, c)
  }

  lemma NodeOfAttached(entries: seq<Entry>, nodes: seq<Node>, paths: seq<seq<nat>>, c: nat) returns (i: nat)
    requires Labelled(entries, nodes, paths) && Attached(entries, c)
    ensures c < |entries| && i < |nodes| && Mirrors(nodes[i], entries[c])
  {
    var path: seq<nat> :| IsPath(entries, path) && Last(path) == c;
    i :| 0 <= i < |paths| && paths[i] == path;
    assert LabelledAt(entries, nodes[i], paths[i]);
  }

  lemma LabelIffAttachedId(entries: seq<Entry>, nodes: seq<Node>, paths: seq<seq<nat>>, id: U64)
    requires Labelled(entries, nodes, paths)
    ensures HasNode(nodes, id) <==> AttachedId(entries, id)
  {
    if HasNode(nodes, id) {
      var i :| 0 <= i < |nodes| && nodes[i].objectId == id;
      assert LabelledAt(entries, nodes[i], paths[i]) && Attached(entries, Last(paths[i]));
    }
    if AttachedId(entries, id) {
      var c: nat :| c < |entries| && entries[c].objectId == id && Attached(entries, c);
      var i := NodeOfAttached(entries, nodes, paths, c);
    }
  }

  /** The tree has one node for each path down from a root through directories and shows its entry; so an id has a node
      exactly when some entry with that id can be reached. */
  lemma ForestIsExact(entries: seq<Entry>)
    requires Acyclic(entries)
    ensures var nodes := PreorderAll(RootsFrom(entries, 0));
      && Labelled(entries, nodes, PathsFrom(entries, 0))
      && (forall id :: HasNode(nodes, id) <==> AttachedId(entries, id))
  {
    ForestIsLabelled(entries);
    forall id ensures HasNode(PreorderAll(RootsFrom(entries, 0)), id) <==> AttachedId(entries, id) {
      LabelIffAttachedId(entries, PreorderAll(RootsFrom(entries, 0)), PathsFrom(entries, 0), id);
    }
  }

  /** With distinct ids no id occurs twice in the tree, and an entry has a node exactly when its parent chain reaches a
      root through directories. */
  lemma DistinctForestIsExact(entries: seq<Entry>)
    requires DistinctIds(entries)
    ensures Acyclic(entries)
    ensures var nodes := PreorderAll(RootsFrom(entries, 0));
      && (forall i, j | 0 <= i < j < |nodes| :: nodes[i].objectId != nodes[j].objectId)
      && (forall c: nat | c < |entries| :: HasNode(nodes, entries[c].objectId) <==> Attached(entries, c))
  {
    DistinctIsAcyclic(entries);
    var paths, nodes := PathsFrom(entries, 0), PreorderAll(RootsFrom(entries, 0));
    ForestIsLabelled(entries);
    forall i: nat, j: nat | i < j < |nodes| ensures nodes[i].objectId != nodes[j].objectId {
      LabelsDiffer(entries, nodes, paths, i, j);
    }
    forall c: nat | c < |entries| ensures HasNode(nodes, entries[c].objectId) <==> Attached(entries, c) {
      LabelIffAttached(entries, nodes, paths, c);
    }
  }

  // ----- searching -----

  /** The search behind `find` and `find_path`: the node itself, then its children one after the other. */
  function Search(node: Node, wanted: Node -> bool): Option<Node> {
    if wanted(node) then Some(node) else SearchAll(node.children, wanted)
  }

  function SearchAll(nodes: seq<Node>, wanted: Node -> bool): Option<Node> {
    if nodes == [] then None
    else
      var found := Search(nodes[0], wanted);
      if found.Some? then found else SearchAll(nodes[1..], wanted)
  }

  function Find(roots: seq<Node>, objectId: U64): Option<Node> {
    SearchAll(roots, (n: Node) => n.objectId == objectId)
  }

  function FindPath(roots: seq<Node>, path: string): Option<Node> {
    SearchAll(roots, (n: Node) => n.path == NormalPath(path))
  }

  ghost predicate IsFirst(nodes: seq<Node>, wanted: Node -> bool, found: Option<Node>) {
    match found
    case None => forall i | 0 <= i < |nodes| :: !wanted(nodes[i])
    case Some(n) =>
      exists i :: 0 <= i < |nodes| && nodes[i] == n && wanted(n) && forall j | 0 <= j < i :: !wanted(nodes[j])
  }

  lemma FirstAppend(a: seq<Node>, b: seq<Node>, wanted: Node -> bool, found: Option<Node>)
    requires IsFirst(a, wanted, found)
    ensures found.Some? ==> IsFirst(a + b, wanted, found)
    ensures found.None? ==> forall other | IsFirst(b, wanted, other) :: IsFirst(a + b, wanted, other)
  {
    if found.Some? {
      var i :| 0 <= i < |a| && a[i] == found.value && wanted(found.value) && forall j | 0 <= j < i :: !wanted(a[j]);
      assert (a + b)[i] == found.value;
    } else {
      forall other | IsFirst(b, wanted, other) ensures IsFirst(a + b, wanted, other) {
        if other.Some? {
          var i :| 0 <= i < |b| && b[i] == other.value && wanted(other.value) && forall j | 0 <= j < i :: !wanted(b[j]);
          assert (a + b)[|a| + i] == other.value;
        }
      }
    }
  }

  /** Searching finds the first match in preorder, and fails only when there is none. */
  lemma {:induction false} SearchIsPreorder(node: Node, wanted: Node -> bool)
    ensures IsFirst(Preorder(node), wanted, Search(node, wanted))
    decreases node, 1
  {
    if wanted(node) {
      assert Preorder(node)[0] == node;
    } else {
      SearchAllIsPreorder(node.children, wanted);
      FirstAppend([node], PreorderAll(node.children), wanted, None);
    }
  }

  lemma {:induction false} SearchAllIsPreorder(nodes: seq<Node>, wanted: Node -> bool)
    ensures IsFirst(PreorderAll(nodes), wanted, SearchAll(nodes, wanted))
    decreases nodes, 0
  {
    if nodes != [] {
      SearchIsPreorder(nodes[0], wanted);
      SearchAllIsPreorder(nodes[1..], wanted);
      FirstAppend(Preorder(nodes[0]), PreorderAll(nodes[1..]), wanted, Search(nodes[0], wanted));
    }
  }

  /** Looking up an id finds a node with that id, exactly when some entry with that id can be reached. */
  lemma FindIsExact(entries: seq<Entry>, id: U64)
    requires Acyclic(entries)
    ensures var found := Find(RootsFrom(entries, 0), id);
      && (found.Some? <==> AttachedId(entries, id))
      && (found.Some? ==> found.value.objectId == id && ShowsEntry(entries, found.value))
  {
    var wanted := (n: Node) => n.objectId == id;
    var paths, nodes := PathsFrom(entries, 0), PreorderAll(RootsFrom(entries, 0));
    SearchAllIsPreorder(RootsFrom(entries, 0), wanted);
    ForestIsLabelled(entries);
    LabelIffAttachedId(entries, nodes, paths, id);
    var found := Find(RootsFrom(entries, 0), id);
    assert IsFirst(nodes, wanted, found);
    if found.Some? {
      var i :| 0 <= i < |nodes| && nodes[i] == found.value && wanted(found.value);
      assert LabelledAt(entries, nodes[i], paths[i]);
    }
  }

  /** Some attached entry carries this path. */
  ghost predicate AttachedPath(entries: seq<Entry>, path: string) {
    exists c :: 0 <= c < |entries| && entries[c].path == path && Attached(entries, c)
  }

  function NormalPath(path: string): string {
    if path == "" then "/" else path
  }

  /** Looking up a path finds the first node in preorder that carries it, the empty path standing for the root's, and
      fails only when no reachable entry carries it. */
  lemma FindPathIsExact(entries: seq<Entry>, path: string)
    requires Acyclic(entries)
    ensures var found := FindPath(RootsFrom(entries, 0), path);
      && IsFirst(PreorderAll(RootsFrom(entries, 0)), (n: Node) => n.path == NormalPath(path), found)
      && (found.Some? <==> AttachedPath(entries, NormalPath(path)))
  {
    var wanted := (n: Node) => n.path == NormalPath(path);
    var paths, nodes := PathsFrom(entries, 0), PreorderAll(RootsFrom(entries, 0));
    SearchAllIsPreorder(RootsFrom(entries, 0), wanted);
    ForestIsLabelled(entries);
    var found := FindPath(RootsFrom(entries, 0), path);
    assert IsFirst(nodes, wanted, found);
    if AttachedPath(entries, NormalPath(path)) {
      var c: nat :| c < |entries| && entries[c].path == NormalPath(path) && Attached(entries, c);
      var i := NodeOfAttached(entries, nodes, paths, c);
      assert wanted(nodes[i]);
    }
    if found.Some? {
      var i :| 0 <= i < |nodes| && nodes[i] == found.value && wanted(found.value);
      assert LabelledAt(entries, nodes[i], paths[i]) && Attached(entries, Last(paths[i]));
    }
  }

  // ----- hierarchies that are trees, and one that is not -----

  /** Ids count the entries from 1, and every parent is a directory recorded earlier, the first entry being its own. */
  ghost predicate NumberedHierarchy(entries: seq<Entry>) {
    forall i: nat | i < |entries| :: PlacedAt(entries, i)
  }

  ghost predicate PlacedAt(entries: seq<Entry>, i: nat)
    requires i < |entries|
  {
    && entries[i].objectId == i + 1 && entries[i].parentId.Some?
    && 1 <= entries[i].parentId.value <= Max(i, 1) && entries[entries[i].parentId.value - 1].IsDirectory()
  }

  lemma {:induction false} NumberedIsAttached(entries: seq<Entry>, c: nat)
    requires NumberedHierarchy(entries) && c < |entries|
    ensures Attached(entries, c)
  {
    assert PlacedAt(entries, c);
    if c == 0 {
      assert IsPath(entries, [0]) && Last([0]) == 0;
    } else {
      var x: nat := entries[c].parentId.value - 1;
      assert PlacedAt(entries, x);
      NumberedIsAttached(entries, x);
      var path: seq<nat> :| IsPath(entries, path) && Last(path) == x;
      PathExtends(entries, path, c);
      assert Last(path + [c]) == c;
    }
  }

  lemma {:induction false} OnlyFirstIsRoot(entries: seq<Entry>, k: nat)
    requires NumberedHierarchy(entries) && Acyclic(entries) && 1 <= k <= |entries|
    ensures RootsFrom(entries, k) == []
    decreases |entries| - k
  {
    if k < |entries| {
      assert PlacedAt(entries, k);
      assert PlacedAt(entries, entries[k].parentId.value - 1);
      OnlyFirstIsRoot(entries, k + 1);
    }
  }

  /** Such a hierarchy is one tree that holds every entry. */
  lemma NumberedIsOneTree(entries: seq<Entry>)
    requires NumberedHierarchy(entries) && entries != []
    ensures DistinctIds(entries) && Acyclic(entries)
    ensures |RootsFrom(entries, 0)| == 1 && RootsFrom(entries, 0)[0].objectId == 1
    ensures forall c: nat | c < |entries| :: HasNode(PreorderAll(RootsFrom(entries, 0)), entries[c].objectId)
  {
    assert DistinctIds(entries) by {
      forall i: nat, j: nat | i < j < |entries| ensures entries[i].objectId != entries[j].objectId {
        assert PlacedAt(entries, i) && PlacedAt(entries, j);
      }
    }
    assert PlacedAt(entries, 0);
    DistinctForestIsExact(entries);
    OnlyFirstIsRoot(entries, 1);
    forall c: nat | c < |entries| ensures HasNode(PreorderAll(RootsFrom(entries, 0)), entries[c].objectId) {
      NumberedIsAttached(entries, c);
    }
  }

  /** Following the links from path[i] to path[j] once more. */
  lemma {:induction false} Retrace(entries: seq<Entry>, path: seq<nat>, i: nat, j: nat, from: seq<nat>)
    returns (longer: seq<nat>)
    requires IsPath(entries, path) && i <= j < |path| && IsPath(entries, from) && Last(from) == path[i]
    ensures IsPath(entries, longer) && |longer| == |from| + j - i && Last(longer) == path[j]
    decreases j - i
  {
    if i == j {
      longer := from;
    } else {
      assert Linked(entries, path, i);
      PathExtends(entries, from, path[i + 1]);
      longer := Retrace(entries, path, i + 1, j, from + [path[i + 1]]);
    }
  }

  lemma {:induction false} Pump(entries: seq<Entry>, path: seq<nat>, i: nat, j: nat, n: nat) returns (longer: seq<nat>)
    requires IsPath(entries, path) && i < j < |path| && path[i] == path[j]
    ensures IsPath(entries, longer) && |longer| > n && Last(longer) == path[j]
  {
    if n == 0 {
      PathPrefix(entries, path, j + 1);
      longer := path[..j + 1];
    } else {
      var shorter := Pump(entries, path, i, j, n - 1);
      longer := Retrace(entries, path, i, j, shorter);
    }
  }

  ghost predicate DepthWithin(entries: seq<Entry>, bound: nat) {
    forall path: seq<nat> :: IsPath(entries, path) ==> |path| <= bound
  }

  /** Paths are bounded exactly when none meets an entry twice. */
  lemma PathsAreBoundedIff(entries: seq<Entry>)
    ensures (exists bound :: DepthWithin(entries, bound)) <==> Acyclic(entries)
  {
    if bound :| DepthWithin(entries, bound) {
      forall path: seq<nat> | IsPath(entries, path) ensures NoRepeats(path) {
        if i, j :| 0 <= i < j < |path| && path[i] == path[j] {
          var longer := Pump(entries, path, i, j, bound);
        }
      }
    } else if Acyclic(entries) {
      forall path: seq<nat> | IsPath(entries, path) ensures |path| <= |entries| {
        PathFits(entries, path);
      }
      assert DepthWithin(entries, |entries|);
    }
  }

  /** The recursion of `build_node` on any entries with a limit on the call depth; None when it runs into the limit. */
  ghost function BuildWithin(entries: seq<Entry>, x: nat, depth: nat): Option<Node>
    requires x < |entries|
    decreases depth, 0
  {
    if depth == 0 then None
    else
      var e := entries[x];
      var below := BuildBelow(entries, x, 0, depth - 1);
      if below.None? then None else Some(Node(e.objectId, e.name, e.path, e.kind, e.status, below.value))
  }

  ghost function BuildBelow(entries: seq<Entry>, x: nat, k: nat, depth: nat): Option<seq<Node>>
    requires x < |entries| && k <= |entries|
    decreases depth, 1 + |entries| - k
  {
    if k == |entries| then Some([])
    else if IsChild(entries, x, k) then
      var first, rest := BuildWithin(entries, k, depth), BuildBelow(entries, x, k + 1, depth);
      if first.None? || rest.None? then None else Some([first.value] + rest.value)
    else BuildBelow(entries, x, k + 1, depth)
  }

  ghost predicate BuildsWithin(entries: seq<Entry>, depth: nat) {
    forall x: nat | x < |entries| && IsRoot(entries, x) :: BuildWithin(entries, x, depth).Some?
  }

  /** Without cycles a depth of as many calls as there are entries suffices, and the result is the node. */
  lemma {:induction false} EnoughDepthBuilds(entries: seq<Entry>, path: seq<nat>, depth: nat)
    requires Acyclic(entries) && IsPath(entries, path) && |path| + depth > |entries|
    ensures BuildWithin(entries, Last(path), depth) == Some(NodeAt(entries, path))
    decreases depth, |entries| + 2
  {
    PathFits(entries, path);
    EnoughDepthBuildsBelow(entries, path, 0, depth - 1);
  }

  lemma {:induction false} EnoughDepthBuildsBelow(entries: seq<Entry>, path: seq<nat>, k: nat, depth: nat)
    requires Acyclic(entries) && IsPath(entries, path) && |path| + depth >= |entries| && k <= |entries|
    ensures BuildBelow(entries, Last(path), k, depth) == Some(NodesBelow(entries, path, k))
    decreases depth, |entries| + 3 + |entries| - k
  {
    PathFits(entries, path);
    if k < |entries| {
      EnoughDepthBuildsBelow(entries, path, k + 1, depth);
      if IsChild(entries, Last(path), k) {
        PathExtends(entries, path, k);
        EnoughDepthBuilds(entries, path + [k], depth);
      }
    }
  }

  lemma {:induction false} ChildIsBuilt(entries: seq<Entry>, x: nat, k: nat, depth: nat, c: nat)
    requires x < |entries| && k <= c < |entries| && IsChild(entries, x, c) && BuildBelow(entries, x, k, depth).Some?
    ensures BuildWithin(entries, c, depth).Some?
    decreases c - k
  {
    if k < c {
      ChildIsBuilt(entries, x, k + 1, depth, c);
    }
  }

  /** A build that ends follows every path to its end, so no path is longer than its depth. */
  lemma {:induction false} BuildFollowsPaths(entries: seq<Entry>, path: seq<nat>, n: nat, depth: nat)
    requires IsPath(entries, path) && 1 <= n <= |path| && BuildWithin(entries, path[n - 1], depth).Some?
    ensures |path| - n < depth
    decreases |path| - n
  {
    if n < |path| {
      assert Linked(entries, path, n - 1);
      ChildIsBuilt(entries, path[n - 1], 0, depth - 1, path[n]);
      BuildFollowsPaths(entries, path, n + 1, depth - 1);
    }
  }

  ghost predicate BuildEnds(entries: seq<Entry>) {
    exists depth :: BuildsWithin(entries, depth)
  }

  /** The unguarded recursion ends on a model exactly when no path down from a root meets an entry twice. */
  lemma BuildEndsIff(entries: seq<Entry>)
    ensures BuildEnds(entries) <==> Acyclic(entries)
  {
    if BuildEnds(entries) {
      var depth :| BuildsWithin(entries, depth);
      forall path: seq<nat> | IsPath(entries, path) ensures |path| <= depth {
        BuildFollowsPaths(entries, path, 1, depth);
      }
      assert DepthWithin(entries, depth);
    } else if Acyclic(entries) {
      forall x: nat | x < |entries| && IsRoot(entries, x) ensures BuildWithin(entries, x, |entries|).Some? {
        assert IsPath(entries, [x]);
        EnoughDepthBuilds(entries, [x], |entries|);
      }
      assert BuildsWithin(entries, |entries|);
    }
    PathsAreBoundedIff(entries);
  }

  /** A root, its child, and a grandchild that repeats the id of the root. */
  function Looping(): seq<Entry> {
    var d := (id: U64, parent: Option<U64>) =>
      Entry(id, "", "", Directory, Normal, parent, None, [], ContentLayout.Empty());
    [d(1, None), d(2, Some(1)), d(1, Some(2))]
  }

  /** With a repeated id the recursion need not end: this model has paths of every length. */
  lemma {:induction false} RepeatedIdsLoop(n: nat) returns (path: seq<nat>)
    ensures IsPath(Looping(), path) && |path| == n + 1
    ensures if n == 0 then Last(path) == 0 else Last(path) == (if n % 2 == 1 then 1 else 2)
  {
    if n == 0 {
      path := [0];
    } else {
      var shorter := RepeatedIdsLoop(n - 1);
      var c := if n % 2 == 1 then 1 else 2;
      PathExtends(Looping(), shorter, c);
      path := shorter + [c];
    }
  }

  // ----- roots and children as the hierarchy records them -----

  /** No recorded parent, itself as parent, or a parent id that no entry has. */
  ghost predicate StandsAlone(entries: seq<Entry>, e: Entry) {
    match e.parentId
    case None => true
    case Some(p) => p == e.objectId || !exists k :: 0 <= k < |entries| && entries[k].objectId == p
  }

  /** The directory d is recorded as parent of e, and they are different objects. */
  ghost predicate HangsBelow(d: Entry, e: Entry) {
    d.kind == Directory && e.parentId == Some(d.objectId) && e.objectId != d.objectId
  }

  ghost predicate IsParentOf(entries: seq<Entry>, x: nat, c: nat) {
    x < |entries| && c < |entries| && HangsBelow(entries[x], entries[c])
  }

  /** An entry is in the tree exactly when it stands alone or hangs below a directory that is in the tree. */
  lemma AttachedIff(entries: seq<Entry>, c: nat)
    requires c < |entries|
    ensures Attached(entries, c)
       <==> StandsAlone(entries, entries[c]) || exists x: nat :: IsParentOf(entries, x, c) && Attached(entries, x)
  {
    if StandsAlone(entries, entries[c]) {
      assert IsPath(entries, [c]) && Last([c]) == c;
    }
    forall x: nat | IsParentOf(entries, x, c) && Attached(entries, x) ensures Attached(entries, c) {
      var path: seq<nat> :| IsPath(entries, path) && Last(path) == x;
      PathExtends(entries, path, c);
      assert Last(path + [c]) == c;
    }
    if Attached(entries, c) {
      var path: seq<nat> :| IsPath(entries, path) && Last(path) == c;
      if |path| > 1 {
        PathPrefix(entries, path, |path| - 1);
        assert Linked(entries, path, |path| - 2);
        assert IsParentOf(entries, Last(path[..|path| - 1]), c);
      }
    }
  }

  /** The entries among those from k on that hang below d, in order. */
  ghost function RecordedBelow(entries: seq<Entry>, d: Entry, k: nat): seq<Entry>
    requires k <= |entries|
    decreases |entries| - k
  {
    if k == |entries| then []
    else (if HangsBelow(d, entries[k]) then [entries[k]] else []) + RecordedBelow(entries, d, k + 1)
  }

  /** The entries from k on that stand alone, in order. */
  ghost function Alone(entries: seq<Entry>, k: nat): seq<Entry>
    requires k <= |entries|
    decreases |entries| - k
  {
    if k == |entries| then []
    else (if StandsAlone(entries, entries[k]) then [entries[k]] else []) + Alone(entries, k + 1)
  }

  ghost predicate AllMirror(nodes: seq<Node>, entries: seq<Entry>) {
    |nodes| == |entries| && forall i | 0 <= i < |nodes| :: Mirrors(nodes[i], entries[i])
  }

  lemma OneMoreMirrors(n: Node, nodes: seq<Node>, e: Entry, entries: seq<Entry>)
    requires Mirrors(n, e) && AllMirror(nodes, entries)
    ensures AllMirror([n] + nodes, [e] + entries)
  {}

  /** The children of a node are the nodes of the entries that hang below its entry, in entry order. */
  lemma {:induction false} ChildrenAreExact(entries: seq<Entry>, path: seq<nat>, k: nat)
    requires Acyclic(entries) && IsPath(entries, path) && k <= |entries|
    ensures AllMirror(NodesBelow(entries, path, k), RecordedBelow(entries, entries[Last(path)], k))
    ensures k == 0 ==> NodeAt(entries, path).children == NodesBelow(entries, path, k)
    decreases |entries| - k
  {
    if k < |entries| {
      ChildrenAreExact(entries, path, k + 1);
      if HangsBelow(entries[Last(path)], entries[k]) {
        PathExtends(entries, path, k);
        OneMoreMirrors(NodeAt(entries, path + [k]), NodesBelow(entries, path, k + 1), entries[k],
                       RecordedBelow(entries, entries[Last(path)], k + 1));
      }
    }
  }

  /** The roots of the tree are the nodes of the entries that stand alone, in entry order. */
  lemma {:induction false} RootsAreExact(entries: seq<Entry>, k: nat)
    requires Acyclic(entries) && k <= |entries|
    ensures AllMirror(RootsFrom(entries, k), Alone(entries, k))
    decreases |entries| - k
  {
    if k < |entries| {
      RootsAreExact(entries, k + 1);
      RootIff(entries, k);
      if IsRoot(entries, k) {
        OneMoreMirrors(NodeAt(entries, [k]), RootsFrom(entries, k + 1), entries[k], Alone(entries, k + 1));
      }
    }
  }

  lemma RootIff(entries: seq<Entry>, k: nat)
    requires k < |entries|
    ensures IsRoot(entries, k) <==> StandsAlone(entries, entries[k])
  {}
}
