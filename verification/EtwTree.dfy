/** The process tree of a run: an in-order fold of process events, and exactly the root's descendants. */
module EtwTree {
  import opened Options
  import opened EtwEvents
  import opened EtwSpec

  /** Only process events that the process preset lets through can extend the tree. */
  predicate IsProcessEvent(cfg: Config, e: Event) {
    cfg.root.Some? && e.walk.None? && e.category == Some(Process) && Process in cfg.presets
  }

  function Tree(cfg: Config, t: seq<Event>): set<Pid>
    decreases |t|
  {
    if t == [] then (if cfg.root.Some? then {cfg.root.value} else {})
    else
      var before := Tree(cfg, Prefix(t));
      if IsProcessEvent(cfg, Last(t)) && InTree(before, Last(t).parentPid) then before + {Owner(Last(t))} else before
  }

  lemma {:induction false} RunTree(cfg: Config, t: seq<Event>)
    ensures Run(cfg, t).tree == Tree(cfg, t)
    decreases |t|
  {
    if t != [] {
      RunTree(cfg, Prefix(t));
      StepTree(cfg, Run(cfg, Prefix(t)), Last(t));
    }
  }

  lemma StepTree(cfg: Config, s: State, e: Event)
    ensures Step(cfg, s, e).tree ==
            if IsProcessEvent(cfg, e) && InTree(s.tree, e.parentPid) then s.tree + {Owner(e)} else s.tree
  {
    assert Owner(e) in s.tree ==> s.tree + {Owner(e)} == s.tree;
  }

  lemma {:induction false} TreeGrows(cfg: Config, t: seq<Event>, n: nat)
    requires n <= |t|
    ensures Tree(cfg, t[..n]) <= Tree(cfg, t)
    decreases |t|
  {
    if n == |t| {
      assert t[..n] == t;
    } else {
      TreeGrows(cfg, Prefix(t), n);
      assert Prefix(t)[..n] == t[..n];
    }
  }

  /** Positions of process events that lead, each the child of the one before, from the root to `pid`. */
  ghost predicate Descent(cfg: Config, t: seq<Event>, path: seq<nat>, pid: Pid) {
    && path != []
    && (forall i :: 0 <= i < |path| ==> path[i] < |t| && IsProcessEvent(cfg, t[path[i]]))
    && (forall i, j :: 0 <= i < j < |path| ==> path[i] < path[j])
    && t[path[0]].parentPid == cfg.root
    && (forall i :: 0 < i < |path| ==> t[path[i]].parentPid == Some(Owner(t[path[i - 1]])))
    && Owner(t[Last(path)]) == pid
  }

  lemma DescentLater(cfg: Config, t: seq<Event>, path: seq<nat>, pid: Pid)
    requires t != [] && Descent(cfg, Prefix(t), path, pid)
    ensures Descent(cfg, t, path, pid)
  {
  }

  lemma DescentExtends(cfg: Config, t: seq<Event>, path: seq<nat>, pid: Pid)
    requires t != [] && IsProcessEvent(cfg, Last(t)) && Last(t).parentPid.Some? && Owner(Last(t)) == pid
    requires Descent(cfg, Prefix(t), path, Last(t).parentPid.value)
    ensures Descent(cfg, t, path + [|t| - 1], pid)
  {
  }

  lemma {:induction false} MemberDescends(cfg: Config, t: seq<Event>, pid: Pid)
    requires pid in Tree(cfg, t) && Some(pid) != cfg.root
    ensures exists path :: Descent(cfg, t, path, pid)
    decreases |t|
  {
    if t != [] {
      var u, e := Prefix(t), Last(t);
      if pid in Tree(cfg, u) {
        MemberDescends(cfg, u, pid);
        var path :| Descent(cfg, u, path, pid);
        DescentLater(cfg, t, path, pid);
      } else if e.parentPid == cfg.root {
        assert Owner(e) == pid;
        assert Descent(cfg, t, [|u|], pid);
      } else {
        MemberDescends(cfg, u, e.parentPid.value);
        var path: seq<nat> :| Descent(cfg, u, path, e.parentPid.value);
        DescentExtends(cfg, t, path, pid);
      }
    }
  }

  lemma DescentShortens(cfg: Config, t: seq<Event>, path: seq<nat>, pid: Pid)
    requires Descent(cfg, t, path, pid) && |path| > 1
    ensures var n := Last(path);
            t[n].parentPid.Some? && Descent(cfg, t[..n], Prefix(path), t[n].parentPid.value)
  {
    assert t[Last(path)].parentPid == Some(Owner(t[path[|path| - 2]]));
  }

  lemma {:induction false} DescentIsMember(cfg: Config, t: seq<Event>, path: seq<nat>, pid: Pid)
    requires cfg.root.Some? && Descent(cfg, t, path, pid)
    ensures pid in Tree(cfg, t)
    decreases |path|
  {
    var n := Last(path);
    var u := t[..n];
    if |path| == 1 {
      RootIsMember(cfg, u);
    } else {
      DescentShortens(cfg, t, path, pid);
      DescentIsMember(cfg, u, Prefix(path), t[n].parentPid.value);
    }
    assert Prefix(t[..n + 1]) == u;
    assert pid in Tree(cfg, t[..n + 1]);
    TreeGrows(cfg, t, n + 1);
  }

  lemma RootIsMember(cfg: Config, t: seq<Event>)
    requires cfg.root.Some?
    ensures cfg.root.value in Tree(cfg, t)
  {
    TreeGrows(cfg, t, 0);
    assert t[..0] == [];
  }

  /** In every reachable state the tree holds the root and the processes that descend from it, and no other. */
  lemma TreeIsDescendants(cfg: Config, t: seq<Event>, pid: Pid)
    requires cfg.root.Some?
    ensures pid in Run(cfg, t).tree <==> Some(pid) == cfg.root || exists path :: Descent(cfg, t, path, pid)
  {
    RunTree(cfg, t);
    RootIsMember(cfg, t);
    if pid in Tree(cfg, t) && Some(pid) != cfg.root {
      MemberDescends(cfg, t, pid);
    }
    if path :| Descent(cfg, t, path, pid) {
      DescentIsMember(cfg, t, path, pid);
    }
  }

  /** Without the process preset nothing but the root is ever followed. */
  lemma {:induction false} NoPresetNoGrowth(cfg: Config, t: seq<Event>)
    requires Process !in cfg.presets
    ensures Tree(cfg, t) == Tree(cfg, [])
    decreases |t|
  {
    if t != [] {
      NoPresetNoGrowth(cfg, Prefix(t));
    }
  }
}
