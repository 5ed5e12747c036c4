/** Absolute paths from the parent relation of an investigation. */
module PathResolution {
  import opened Machine

  datatype PathEntry = PathEntry(objectId: nat, parentId: nat, name: string, isDirectory: bool)

  /** The first entry with this id. */
  function Lookup(entries: seq<PathEntry>, id: nat): (found: Option<PathEntry>)
    ensures found.Some? ==> found.value in entries && found.value.objectId == id
    ensures found.None? ==> forall e | e in entries :: e.objectId != id
  {
    if entries == [] then None
    else if entries[0].objectId == id then Some(entries[0])
    else Lookup(entries[1..], id)
  }

  function Ids(entries: seq<PathEntry>): set<nat> {
    set e | e in entries :: e.objectId
  }

  // ----- the path, root first -----

  /** The names from below the root down to `id`; an id in `visited`, an unknown id and a self-parent end the climb. */
  function Components(entries: seq<PathEntry>, id: nat, visited: set<nat>): seq<string>
    decreases Ids(entries) - visited
  {
    if id in visited then []
    else
      match Lookup(entries, id)
      case None => []
      case Some(e) =>
        if e.objectId == e.parentId then []
        else
          assert id in Ids(entries) - visited;
          Components(entries, e.parentId, visited + {id}) + [e.name]
  }

  function Join(components: seq<string>): string {
    if components == [] then ""
    else if |components| == 1 then components[0]
    else components[0] + "/" + Join(components[1..])
  }

  function Render(components: seq<string>): string {
    if components == [] then "/" else "/" + Join(components)
  }

  function PathOf(entries: seq<PathEntry>, entry: PathEntry): string {
    if entry.isDirectory && entry.objectId == entry.parentId then "/"
    else Render(Components(entries, entry.objectId, {}))
  }

  function Reverse<T>(s: seq<T>): seq<T> {
    if s == [] then [] else Reverse(s[1..]) + [s[0]]
  }

  lemma {:induction false} ReverseAppend<T>(s: seq<T>, x: T)
    ensures Reverse(s + [x]) == [x] + Reverse(s)
  {
    if s == [] {
      assert [] + [x] == [x];
    } else {
      ReverseAppend(s[1..], x);
      assert (s + [x])[1..] == s[1..] + [x];
    }
  }

  /** One turn of the loop moves a name from what is still to climb to what was collected. */
  lemma ClimbOnce(entries: seq<PathEntry>, id: nat, visited: set<nat>, components: seq<string>, e: PathEntry)
    requires id !in visited && Lookup(entries, id) == Some(e) && e.objectId != e.parentId
    ensures Components(entries, id, visited) + Reverse(components)
         == Components(entries, e.parentId, visited + {id}) + Reverse(components + [e.name])
  {
    ReverseAppend(components, e.name);
    assert Components(entries, id, visited) == Components(entries, e.parentId, visited + {id}) + [e.name];
  }

  /** Climbs the parent relation; on any relation, cyclic or with repeated ids, the loop runs at most once more than
      there are distinct ids. */
  method ResolvePath(entries: seq<PathEntry>, entry: PathEntry) returns (path: string, ghost steps: nat)
    ensures path == PathOf(entries, entry)
    ensures steps <= |Ids(entries)| + 1
  {
    steps := 0;
    if entry.isDirectory && entry.objectId == entry.parentId {
      return "/", 0;
    }
    var components: seq<string> := [];
    var currentId := entry.objectId;
    var visited: set<nat> := {};
    assert Components(entries, currentId, {}) + Reverse(components) == Components(entries, currentId, {});
    while true
      invariant visited <= Ids(entries) && steps == |visited|
      invariant Components(entries, entry.objectId, {}) == Components(entries, currentId, visited) + Reverse(components)
      decreases Ids(entries) - visited
    {
      BoundedBy(visited, Ids(entries));
      steps := steps + 1;
      if currentId in visited {
        break;
      }
      var found := Lookup(entries, currentId);
      if found.None? {
        break;
      }
      var current := found.value;
      if current.objectId == current.parentId {
        break;
      }
      assert currentId in Ids(entries);
      ClimbOnce(entries, currentId, visited, components, current);
      components := components + [current.name];
      visited := visited + {currentId};
      currentId := current.parentId;
    }
    assert [] + Reverse(components) == Reverse(components);
    path := Render(Reverse(components));
  }

  lemma BoundedBy<T>(a: set<T>, b: set<T>)
    requires a <= b
    ensures |a| <= |b|
  {
    assert b == a + (b - a);
  }

  // ----- well-founded hierarchies -----

  /** Ids are distinct and every entry is its own parent or has a recorded parent with a smaller id. */
  ghost predicate WellFounded(entries: seq<PathEntry>) {
    && (forall d, e | d in entries && e in entries && d.objectId == e.objectId :: d == e)
    && (forall e | e in entries :: HasParent(entries, e))
  }

  ghost predicate HasParent(entries: seq<PathEntry>, e: PathEntry) {
    e.parentId == e.objectId || (e.parentId < e.objectId && exists p :: p in entries && p.objectId == e.parentId)
  }

  /** Going up, ids that were left behind never come back. */
  lemma {:induction false} VisitedDoNotMatter(entries: seq<PathEntry>, id: nat, visited: set<nat>)
    requires WellFounded(entries) && forall v | v in visited :: v > id
    ensures Components(entries, id, visited) == Components(entries, id, {})
    decreases id
  {
    var found := Lookup(entries, id);
    if found.Some? && found.value.parentId != id {
      assert HasParent(entries, found.value);
      VisitedDoNotMatter(entries, found.value.parentId, visited + {id});
      VisitedDoNotMatter(entries, found.value.parentId, {} + {id});
    }
  }

  lemma {:induction false} JoinAppend(components: seq<string>, name: string)
    requires components != []
    ensures Join(components + [name]) == Join(components) + "/" + name
  {
    if |components| > 1 {
      JoinAppend(components[1..], name);
      assert (components + [name])[1..] == components[1..] + [name];
      assert components[0] + "/" + (Join(components[1..]) + "/" + name) == Join(components) + "/" + name;
    }
  }

  lemma RenderAppend(components: seq<string>, name: string)
    ensures Render(components + [name]) == (if components == [] then "" else Render(components)) + "/" + name
  {
    if components == [] {
      assert components + [name] == [name];
      assert "" + "/" + name == "/" + name;
    } else {
      JoinAppend(components, name);
      assert "/" + (Join(components) + "/" + name) == "/" + Join(components) + "/" + name;
    }
  }

  /** Whether an entry stands for the top of the hierarchy. */
  predicate IsTop(e: PathEntry) {
    e.objectId == e.parentId
  }

  /** The path of an entry is its parent's path extended by its own name; the top is "/". */
  lemma PathExtendsParent(entries: seq<PathEntry>, e: PathEntry, p: PathEntry)
    requires WellFounded(entries) && e in entries && p in entries && e.parentId == p.objectId
    ensures PathOf(entries, e) ==
      if IsTop(e) then "/" else (if IsTop(p) then "" else PathOf(entries, p)) + "/" + e.name
  {
    assert Lookup(entries, e.objectId) == Some(e) && Lookup(entries, p.objectId) == Some(p);
    if !IsTop(e) {
      assert HasParent(entries, e);
      VisitedDoNotMatter(entries, p.objectId, {} + {e.objectId});
      RenderAppend(Components(entries, p.objectId, {}), e.name);
    }
  }
}
