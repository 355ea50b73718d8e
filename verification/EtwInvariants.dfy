/** What every step of the extraction keeps about its stack cache and its table of parked records. */
module EtwInvariants {
  import opened Options
  import opened EtwEvents
  import opened EtwSpec

  /** Every cached timestamp has between 1 and 32 walks, all of its own, and a place in the bounded queue. */
  ghost predicate CacheBounded(c: StackCache) {
    && |c.order| <= MAX_PENDING_STACK_TIMESTAMPS
    && (forall time :: time in c.stacks ==>
          time in c.order && 0 < |c.stacks[time]| <= MAX_PENDING_STACKS_PER_TIMESTAMP)
    && (forall time, w :: time in c.stacks && w in c.stacks[time] ==> w.time == time)
  }

  ghost predicate CacheTraced(cfg: Config, tree: set<Pid>, stacks: Stacks) {
    forall time, w :: time in stacks && w in stacks[time] ==> OwnerAllowed(cfg, tree, w.pid)
  }

  /** A parked record waits under its own IRP, is not completed yet and belongs to the traced tree. */
  predicate Parked(cfg: Config, tree: set<Pid>, irp: Irp, r: FileRecord) {
    && r.origin.io.irp == Some(irp)
    && r.completion.None?
    && r.pid == Owner(r.origin)
    && OwnerAllowed(cfg, tree, r.pid)
  }

  ghost predicate Invariant(cfg: Config, s: State) {
    && CacheBounded(s.cache)
    && CacheTraced(cfg, s.tree, s.cache.stacks)
    && (forall irp :: irp in s.irps.pending ==> Parked(cfg, s.tree, irp, s.irps.pending[irp]))
  }

  lemma TakeKeeps(cfg: Config, tree: set<Pid>, c: StackCache, time: int, pid: Pid, tid: nat)
    requires CacheBounded(c) && CacheTraced(cfg, tree, c.stacks)
    ensures var stacks := AfterTake(c.stacks, time, pid, tid);
            CacheBounded(c.(stacks := stacks)) && CacheTraced(cfg, tree, stacks)
  {
    var ws := CachedAt(c.stacks, time);
    var k := SelectWalk(ws, pid, tid);
    if k < |ws| {
      assert forall w :: w in ws[..k] + ws[k + 1..] ==> w in ws;
    }
  }

  /** After eviction and queueing every cached timestamp is in the queue, the new one included. */
  lemma QueueKeeps(c: StackCache, time: int)
    requires CacheBounded(c) && time !in c.stacks
    ensures var c' := MakeRoom(c).(order := MakeRoom(c).order + [time]);
            CacheBounded(c') && time in c'.order && c'.stacks.Keys <= c.stacks.Keys
  {
    if |c.order| == MAX_PENDING_STACK_TIMESTAMPS {
      assert c.order == [c.order[0]] + c.order[1..];
    }
  }

  lemma AddKeeps(cfg: Config, tree: set<Pid>, c: StackCache, w: StackWalk)
    requires CacheBounded(c) && CacheTraced(cfg, tree, c.stacks) && OwnerAllowed(cfg, tree, w.pid)
    requires w.time in c.order && |CachedAt(c.stacks, w.time)| < MAX_PENDING_STACKS_PER_TIMESTAMP
    ensures var stacks := c.stacks[w.time := CachedAt(c.stacks, w.time) + [w]];
            CacheBounded(c.(stacks := stacks)) && CacheTraced(cfg, tree, stacks)
  {
  }

  lemma CacheKeeps(cfg: Config, tree: set<Pid>, c: StackCache, w: StackWalk)
    requires CacheBounded(c) && CacheTraced(cfg, tree, c.stacks) && OwnerAllowed(cfg, tree, w.pid)
    ensures var c' := CacheWalk(c, w); CacheBounded(c') && CacheTraced(cfg, tree, c'.stacks)
  {
    var c1 := if w.time in c.stacks then c else MakeRoom(c).(order := MakeRoom(c).order + [w.time]);
    if w.time !in c.stacks {
      QueueKeeps(c, w.time);
    }
    if |CachedAt(c1.stacks, w.time)| < MAX_PENDING_STACKS_PER_TIMESTAMP {
      AddKeeps(cfg, tree, c1, w);
    }
  }

  /** No cached stack is consumed by a file event that the tree filter then rejects. */
  lemma RejectedTakesNothing(cfg: Config, s: State, e: Event)
    requires CacheTraced(cfg, s.tree, s.cache.stacks) && !OwnerAllowed(cfg, s.tree, Owner(e))
    ensures Taken(s.cache.stacks, e.time, Owner(e), e.tid) == []
    ensures AfterTake(s.cache.stacks, e.time, Owner(e), e.tid) == s.cache.stacks
  {
    var ws := CachedAt(s.cache.stacks, e.time);
    var k := SelectWalk(ws, Owner(e), e.tid);
    assert forall w :: w in ws ==> w.pid != Owner(e);
  }

  lemma WalkKeeps(cfg: Config, s: State, w: StackWalk)
    requires Invariant(cfg, s)
    ensures Invariant(cfg, StepWalk(cfg, s, w))
  {
    if OwnerAllowed(cfg, s.tree, w.pid) {
      CacheKeeps(cfg, s.tree, s.cache, w);
    }
  }

  lemma BeginKeeps(cfg: Config, tree: set<Pid>, i: IrpTable, r: FileRecord)
    requires forall irp :: irp in i.pending ==> Parked(cfg, tree, irp, i.pending[irp])
    requires r.origin.io.irp.Some? ==> Parked(cfg, tree, r.origin.io.irp.value, r)
    ensures var i' := BeginIo(i, r).table;
            forall irp :: irp in i'.pending ==> Parked(cfg, tree, irp, i'.pending[irp])
  {
  }

  lemma FileKeeps(cfg: Config, s: State, e: Event)
    requires Invariant(cfg, s)
    ensures Invariant(cfg, StepFile(cfg, s, e))
  {
    TakeKeeps(cfg, s.tree, s.cache, e.time, Owner(e), e.tid);
    if e.opcode != FILE_IO_OP_END && OwnerAllowed(cfg, s.tree, Owner(e)) {
      var walks := Taken(s.cache.stacks, e.time, Owner(e), e.tid);
      BeginKeeps(cfg, s.tree, s.irps, Decode(CachePath(s.paths, e), e, walks));
    }
  }

  lemma OtherKeeps(cfg: Config, s: State, c: Category, e: Event)
    requires Invariant(cfg, s)
    ensures Invariant(cfg, StepOther(cfg, s, c, e))
  {
    TakeKeeps(cfg, s.tree, s.cache, e.time, Owner(e), e.tid);
    var s' := StepOther(cfg, s, c, e);
    assert s.tree <= s'.tree;
    assert s'.irps == s.irps;
  }

  lemma StepKeeps(cfg: Config, s: State, e: Event)
    requires Invariant(cfg, s)
    ensures Invariant(cfg, Step(cfg, s, e))
  {
    if e.walk.Some? {
      WalkKeeps(cfg, s, e.walk.value);
    } else if e.category.Some? {
      var s1 := StepImage(cfg, s, e.category.value, e);
      assert Invariant(cfg, s1);
      if e.category.value in cfg.presets {
        if KnownFileIo(e) {
          FileKeeps(cfg, s1, e);
        } else {
          OtherKeeps(cfg, s1, e.category.value, e);
        }
      }
    }
  }

  lemma {:induction false} Reachable(cfg: Config, t: seq<Event>)
    ensures Invariant(cfg, Run(cfg, t))
    decreases |t|
  {
    if t != [] {
      Reachable(cfg, Prefix(t));
      StepKeeps(cfg, Run(cfg, Prefix(t)), Last(t));
    }
  }

  lemma {:induction false} DistinctFit(s: set<int>, q: seq<int>)
    requires forall x :: x in s ==> x in q
    ensures |s| <= |q|
    decreases |q|
  {
    if q == [] {
      assert forall x :: x !in s;
      assert s == {};
    } else {
      DistinctFit(s - {q[0]}, q[1..]);
      assert |s| <= |s - {q[0]}| + 1 by {
        assert s <= (s - {q[0]}) + {q[0]};
        if q[0] in s { assert s == (s - {q[0]}) + {q[0]}; } else { assert s == s - {q[0]}; }
      }
    }
  }

  /** In every reachable state at most 4096 timestamps are cached, each with 1 to 32 walks. */
  lemma CacheIsBounded(cfg: Config, t: seq<Event>)
    ensures var c := Run(cfg, t).cache;
            && |c.stacks| <= MAX_PENDING_STACK_TIMESTAMPS
            && forall time :: time in c.stacks ==>
                 time in c.order && 0 < |c.stacks[time]| <= MAX_PENDING_STACKS_PER_TIMESTAMP
  {
    Reachable(cfg, t);
    var c := Run(cfg, t).cache;
    DistinctFit(c.stacks.Keys, c.order);
    assert |c.stacks| == |c.stacks.Keys|;
  }
}
