/**
 * The path caches answer a question about the trace: which path did the latest accepted event that
 * carries this file object (or this file key) give it, unless a CLOSE or CLEANUP ended it since?
 */
module EtwPaths {
  import opened Options
  import opened EtwEvents
  import opened EtwSpec
  import opened EtwTree
  import opened EtwIrps

  datatype IdKind = ObjectId | KeyId

  function IdOf(kind: IdKind, e: Event): Option<nat> {
    if kind.ObjectId? then e.io.fileObject else e.io.fileKey
  }

  function CacheOf(kind: IdKind, p: PathTable): map<nat, string> {
    if kind.ObjectId? then p.byObject else p.byKey
  }

  predicate AcceptedAt(cfg: Config, t: seq<Event>, i: nat)
    requires i < |t|
  {
    AcceptedBy(cfg, Tree(cfg, t[..i]), t[i])
  }

  /** Event i decides what is known about the id: it names its path or ends its life. */
  predicate Decides(cfg: Config, t: seq<Event>, i: nat, kind: IdKind, id: nat)
    requires i < |t|
  {
    && AcceptedAt(cfg, t, i) && IdOf(kind, t[i]) == Some(id)
    && ((t[i].io.path.Some? && t[i].io.path.value != "") || t[i].opcode == 65 || t[i].opcode == 66)
  }

  predicate Names(cfg: Config, t: seq<Event>, i: nat, kind: IdKind, id: nat, path: string)
    requires i < |t|
  {
    Decides(cfg, t, i, kind, id) && t[i].opcode != 65 && t[i].opcode != 66 && t[i].io.path == Some(path)
  }

  /** The path of the id by a search of the history, latest event first. */
  function LatestPath(cfg: Config, t: seq<Event>, kind: IdKind, id: nat): Option<string>
    decreases |t|
  {
    if t == [] then None
    else if Decides(cfg, t, |t| - 1, kind, id) then
      (if Last(t).opcode == 65 || Last(t).opcode == 66 then None else Last(t).io.path)
    else LatestPath(cfg, Prefix(t), kind, id)
  }

  function LatestPathOf(cfg: Config, t: seq<Event>, kind: IdKind, id: Option<nat>): Option<string> {
    if id.None? then None else LatestPath(cfg, t, kind, id.value)
  }

  lemma StepPathTable(cfg: Config, s: State, e: Event)
    ensures Step(cfg, s, e).paths == if AcceptedBy(cfg, s.tree, e) then StepPaths(s.paths, e) else s.paths
  {
  }

  lemma StepLookup(p: PathTable, e: Event, kind: IdKind, id: nat)
    ensures Lookup(CacheOf(kind, StepPaths(p, e)), Some(id)) ==
            if IdOf(kind, e) == Some(id) && (HasPath(e) || Invalidates(e))
            then (if Invalidates(e) then None else e.io.path)
            else Lookup(CacheOf(kind, p), Some(id))
  {
  }

  lemma {:induction false} CacheIsSearch(cfg: Config, t: seq<Event>, kind: IdKind, id: nat)
    ensures Lookup(CacheOf(kind, Run(cfg, t).paths), Some(id)) == LatestPath(cfg, t, kind, id)
    decreases |t|
  {
    if t != [] {
      var s := Run(cfg, Prefix(t));
      CacheIsSearch(cfg, Prefix(t), kind, id);
      RunTree(cfg, Prefix(t));
      StepPathTable(cfg, s, Last(t));
      StepLookup(s.paths, Last(t), kind, id);
    }
  }

  lemma {:induction false} SearchFinds(cfg: Config, t: seq<Event>, kind: IdKind, id: nat)
    ensures LatestPath(cfg, t, kind, id).Some? ==>
              exists i :: 0 <= i < |t| && Names(cfg, t, i, kind, id, LatestPath(cfg, t, kind, id).value)
                          && forall j :: i < j < |t| ==> !Decides(cfg, t, j, kind, id)
    decreases |t|
  {
    if t != [] && LatestPath(cfg, t, kind, id).Some? {
      if Decides(cfg, t, |t| - 1, kind, id) {
        assert Names(cfg, t, |t| - 1, kind, id, LatestPath(cfg, t, kind, id).value);
      } else {
        var u := Prefix(t);
        SearchFinds(cfg, u, kind, id);
        var i :| 0 <= i < |u| && Names(cfg, u, i, kind, id, LatestPath(cfg, t, kind, id).value)
                 && forall j :: i < j < |u| ==> !Decides(cfg, u, j, kind, id);
        forall j | 0 <= j < |u|
          ensures u[..j] == t[..j]
        {
        }
        assert Names(cfg, t, i, kind, id, LatestPath(cfg, t, kind, id).value);
        forall j | i < j < |t|
          ensures !Decides(cfg, t, j, kind, id)
        {
          if j < |u| {
            assert !Decides(cfg, u, j, kind, id);
          }
        }
      }
    }
  }

  lemma {:induction false} SearchComplete(cfg: Config, t: seq<Event>, kind: IdKind, id: nat, i: nat, path: string)
    requires i < |t| && Names(cfg, t, i, kind, id, path)
    requires forall j :: i < j < |t| ==> !Decides(cfg, t, j, kind, id)
    ensures LatestPath(cfg, t, kind, id) == Some(path)
    decreases |t|
  {
    if i == |t| - 1 {
      assert Decides(cfg, t, |t| - 1, kind, id);
    } else {
      var u := Prefix(t);
      assert !Decides(cfg, t, |t| - 1, kind, id);
      assert u[..i] == t[..i];
      forall j | i < j < |u|
        ensures !Decides(cfg, u, j, kind, id)
      {
        assert u[..j] == t[..j];
        assert !Decides(cfg, t, j, kind, id);
      }
      SearchComplete(cfg, u, kind, id, i, path);
    }
  }

  /**
   * In every reachable state an id is cached with a path exactly when some accepted event named that
   * path for it and no later accepted event named another one, closed it or cleaned it up.
   */
  lemma CacheRefinesHistory(cfg: Config, t: seq<Event>, kind: IdKind, id: nat, path: string)
    ensures var cache := CacheOf(kind, Run(cfg, t).paths);
            id in cache && cache[id] == path <==>
            exists i :: 0 <= i < |t| && Names(cfg, t, i, kind, id, path)
                        && forall j :: i < j < |t| ==> !Decides(cfg, t, j, kind, id)
  {
    CacheIsSearch(cfg, t, kind, id);
    SearchFinds(cfg, t, kind, id);
    if i :| 0 <= i < |t| && Names(cfg, t, i, kind, id, path)
            && forall j :: i < j < |t| ==> !Decides(cfg, t, j, kind, id)
    {
      SearchComplete(cfg, t, kind, id, i, path);
    }
  }

  /** Every accepted event is counted once, as resolved or as unresolved. */
  lemma {:induction false} PathsCounted(cfg: Config, t: seq<Event>)
    ensures var p := Run(cfg, t).paths; p.resolved + p.unresolved == |Accepted(cfg, t)|
    decreases |t|
  {
    if t != [] {
      PathsCounted(cfg, Prefix(t));
      RunTree(cfg, Prefix(t));
      StepPathTable(cfg, Run(cfg, Prefix(t)), Last(t));
    }
  }

  /** A path is known for the event: its own, or one that the history gives its object or its key. */
  predicate PathKnown(cfg: Config, t: seq<Event>, e: Event) {
    || (e.io.path.Some? && e.io.path.value != "")
    || LatestPathOf(cfg, t, ObjectId, e.io.fileObject).Some?
    || LatestPathOf(cfg, t, KeyId, e.io.fileKey).Some?
  }

  /** How many accepted events had a known path when they came. */
  function KnownPaths(cfg: Config, t: seq<Event>): nat
    decreases |t|
  {
    if t == [] then 0
    else KnownPaths(cfg, Prefix(t)) +
         if AcceptedAt(cfg, t, |t| - 1) && PathKnown(cfg, Prefix(t), Last(t)) then 1 else 0
  }

  lemma KnownResolves(cfg: Config, t: seq<Event>, e: Event)
    ensures Resolves(CachePath(Run(cfg, t).paths, e), e) <==> PathKnown(cfg, t, e)
  {
    if e.io.fileObject.Some? {
      CacheIsSearch(cfg, t, ObjectId, e.io.fileObject.value);
    }
    if e.io.fileKey.Some? {
      CacheIsSearch(cfg, t, KeyId, e.io.fileKey.value);
    }
  }

  /** In every reachable state the resolved paths are counted: the accepted events with a known path. */
  lemma {:induction false} ResolvedAreKnown(cfg: Config, t: seq<Event>)
    ensures Run(cfg, t).paths.resolved == KnownPaths(cfg, t)
    decreases |t|
  {
    if t != [] {
      ResolvedAreKnown(cfg, Prefix(t));
      RunTree(cfg, Prefix(t));
      StepPathTable(cfg, Run(cfg, Prefix(t)), Last(t));
      KnownResolves(cfg, Prefix(t), Last(t));
      assert t[..|t| - 1] == Prefix(t);
    }
  }
}
