/**
 * The trace filter. Extracting a filtered trace gives what extracting the full trace gives, up to the
 * running number of completions and two counters of discarded input - exactly when no file event of the
 * traced tree was logged under a header process that the filter does not follow.
 */
module EtwFilter {
  import opened Options
  import opened EtwEvents
  import opened EtwSpec
  import opened EtwTree
  import opened EtwInvariants
  import opened EtwIrps
  import opened EtwPaths

  // ---------- the filter ----------

  predicate KeptForWalk(cfg: Config, tree: set<Pid>, e: Event) {
    e.walk.Some? && OwnerAllowed(cfg, tree, e.walk.value.pid)
  }

  /** Neither a stack walk of the tree nor a completion: the process tree decides. */
  predicate NeedsTree(cfg: Config, tree: set<Pid>, e: Event) {
    !KeptForWalk(cfg, tree, e) && !IsOpEnd(cfg, e)
  }

  /** The category is wanted for output or, for images, to build the module map. */
  predicate Wanted(cfg: Config, e: Event) {
    e.category.Some? && (e.category.value in cfg.presets || e.category == Some(Image))
  }

  predicate Keeps(cfg: Config, tree: set<Pid>, e: Event) {
    if NeedsTree(cfg, tree, e) then Wanted(cfg, e) && Allows(cfg, tree, e.category.value, e) else true
  }

  function FilterGrow(cfg: Config, tree: set<Pid>, e: Event): set<Pid> {
    if NeedsTree(cfg, tree, e) && Wanted(cfg, e) then Grow(cfg, tree, e.category.value, e) else tree
  }

  function FilterTree(cfg: Config, t: seq<Event>): set<Pid>
    decreases |t|
  {
    if t == [] then Init(cfg).tree else FilterGrow(cfg, FilterTree(cfg, Prefix(t)), Last(t))
  }

  function Filter(cfg: Config, t: seq<Event>): seq<Event>
    decreases |t|
  {
    if t == [] then []
    else Filter(cfg, Prefix(t)) + (if Keeps(cfg, FilterTree(cfg, Prefix(t)), Last(t)) then [Last(t)] else [])
  }

  // ---------- which events survive ----------

  /** The process that an event is about: the decoded one if there is one, else that of the header. */
  predicate AboutFollowed(tree: set<Pid>, e: Event) {
    if e.category == Some(Process)
    then (if e.pid.Some? then e.pid.value in tree else e.headerPid in tree)
         || (e.parentPid.Some? && e.parentPid.value in tree)
    else e.headerPid in tree
  }

  /**
   * Event i in terms of its fields: a stack walk of a followed process, an enabled completion of the file
   * providers, or an event of an enabled category or of an image whose process is followed.
   */
  predicate SurvivesAt(cfg: Config, t: seq<Event>, i: nat)
    requires i < |t|
  {
    var e, tree := t[i], FilterTree(cfg, t[..i]);
    || (e.walk.Some? && (cfg.root.None? || e.walk.value.pid in tree))
    || (e.walk.None? && e.category == Some(File) && File in cfg.presets && e.fileProvider && e.opcode == 76)
    || (e.category.Some? && (e.category.value in cfg.presets || e.category == Some(Image))
        && (cfg.root.None? || AboutFollowed(tree, e)))
  }

  function Survivors(cfg: Config, t: seq<Event>): seq<Event>
    decreases |t|
  {
    if t == [] then [] else Survivors(cfg, Prefix(t)) + (if SurvivesAt(cfg, t, |t| - 1) then [Last(t)] else [])
  }

  lemma KeepsMeans(cfg: Config, t: seq<Event>)
    requires t != []
    ensures Keeps(cfg, FilterTree(cfg, Prefix(t)), Last(t)) <==> SurvivesAt(cfg, t, |t| - 1)
  {
    assert t[..|t| - 1] == Prefix(t);
  }

  /** The filtered trace holds exactly the events that survive, in trace order. */
  lemma {:induction false} FilterKeepsSurvivors(cfg: Config, t: seq<Event>)
    ensures Filter(cfg, t) == Survivors(cfg, t)
    decreases |t|
  {
    if t != [] {
      FilterKeepsSurvivors(cfg, Prefix(t));
      KeepsMeans(cfg, t);
    }
  }

  lemma {:induction false} SurvivorSurvives(cfg: Config, t: seq<Event>, e: Event)
    requires e in Survivors(cfg, t)
    ensures exists i :: 0 <= i < |t| && t[i] == e && SurvivesAt(cfg, t, i)
    decreases |t|
  {
    if SurvivesAt(cfg, t, |t| - 1) && e == Last(t) {
      assert t[|t| - 1] == e;
    } else {
      SurvivorSurvives(cfg, Prefix(t), e);
      var i :| 0 <= i < |Prefix(t)| && Prefix(t)[i] == e && SurvivesAt(cfg, Prefix(t), i);
      assert Prefix(t)[..i] == t[..i];
      assert SurvivesAt(cfg, t, i);
    }
  }

  lemma {:induction false} FilterTreeGrows(cfg: Config, t: seq<Event>, n: nat)
    requires n <= |t|
    ensures FilterTree(cfg, t[..n]) <= FilterTree(cfg, t)
    decreases |t|
  {
    if n == |t| {
      assert t[..n] == t;
    } else {
      FilterTreeGrows(cfg, Prefix(t), n);
      assert Prefix(t)[..n] == t[..n];
    }
  }

  /**
   * With a root, nothing of a process that is never followed is in the filtered trace, besides the
   * completions of file events, which name no process to judge them by.
   */
  lemma UnfollowedIsDropped(cfg: Config, t: seq<Event>, e: Event)
    requires e in Filter(cfg, t) && cfg.root.Some?
    ensures || (e.walk.Some? && e.walk.value.pid in FilterTree(cfg, t))
            || (e.category == Some(File) && e.opcode == 76)
            || AboutFollowed(FilterTree(cfg, t), e)
  {
    FilterKeepsSurvivors(cfg, t);
    SurvivorSurvives(cfg, t, e);
    var i :| 0 <= i < |t| && t[i] == e && SurvivesAt(cfg, t, i);
    FilterTreeGrows(cfg, t, i);
  }

  /** What an event adds to the followed processes, in terms of its fields. */
  lemma FilterTreeStep(cfg: Config, t: seq<Event>, e: Event)
    ensures var tree := FilterTree(cfg, t);
            FilterTree(cfg, t + [e]) ==
            if && cfg.root.Some? && e.category == Some(Process) && Process in cfg.presets
               && (e.walk.None? || e.walk.value.pid !in tree) && e.parentPid.Some? && e.parentPid.value in tree
            then tree + {if e.pid.Some? then e.pid.value else e.headerPid} else tree
  {
    assert Prefix(t + [e]) == t;
    var tree := FilterTree(cfg, t);
    assert Owner(e) in tree ==> tree + {Owner(e)} == tree;
  }

  /** When no stack walk passes for a process event, the filter follows exactly what the extraction follows. */
  lemma {:induction false} FilterTreeIsTree(cfg: Config, t: seq<Event>)
    requires forall e :: e in t && e.walk.Some? ==> e.category != Some(Process)
    ensures FilterTree(cfg, t) == Tree(cfg, t)
    decreases |t|
  {
    if t != [] {
      FilterTreeIsTree(cfg, Prefix(t));
      assert t == Prefix(t) + [Last(t)] && Last(t) in t;
      FilterTreeStep(cfg, Prefix(t), Last(t));
    }
  }

  // ---------- idempotence ----------

  lemma {:induction false} FilteredAgain(cfg: Config, t: seq<Event>)
    ensures FilterTree(cfg, Filter(cfg, t)) == FilterTree(cfg, t)
    ensures Filter(cfg, Filter(cfg, t)) == Filter(cfg, t)
    decreases |t|
  {
    if t != [] {
      var u, e := Prefix(t), Last(t);
      FilteredAgain(cfg, u);
      if Keeps(cfg, FilterTree(cfg, u), e) {
        assert Prefix(Filter(cfg, t)) == Filter(cfg, u);
      } else {
        assert Filter(cfg, t) == Filter(cfg, u);
      }
    }
  }

  // ---------- the two trees ----------

  /** The filter follows at least the processes that the extraction follows. */
  lemma {:induction false} FilterFollowsMore(cfg: Config, t: seq<Event>)
    ensures Tree(cfg, t) <= FilterTree(cfg, t)
    decreases |t|
  {
    if t != [] {
      FilterFollowsMore(cfg, Prefix(t));
    }
  }

  lemma {:induction false} FilteredTree(cfg: Config, t: seq<Event>)
    ensures Tree(cfg, Filter(cfg, t)) == Tree(cfg, t)
    decreases |t|
  {
    if t != [] {
      var u, e := Prefix(t), Last(t);
      FilteredTree(cfg, u);
      FilterFollowsMore(cfg, u);
      if Keeps(cfg, FilterTree(cfg, u), e) {
        assert Prefix(Filter(cfg, t)) == Filter(cfg, u);
      } else {
        assert Filter(cfg, t) == Filter(cfg, u);
      }
    }
  }

  // ---------- what is compared ----------

  /** A record without the running number of its completion. */
  function EraseRecord(r: FileRecord): FileRecord {
    if r.completion.Some? then r.(completion := Some(r.completion.value.(sequence := 0))) else r
  }

  function EraseLine(o: Output): Output {
    if o.FileLine? then o.(record := EraseRecord(o.record)) else o
  }

  function EraseLog(log: seq<Output>): seq<Output> {
    seq(|log|, i requires 0 <= i < |log| => EraseLine(log[i]))
  }

  function EraseSink(k: Sink): Sink {
    k.(log := EraseLog(k.log), skipped := 0)
  }

  /** All of the state but completion numbers, the skipped events and the dropped stack walks. */
  function Erase(s: State): State {
    s.(sink := EraseSink(s.sink), cache := s.cache.(dropped := 0), sequence := 0)
  }

  // ---------- equal up to erasure is kept by every step ----------

  lemma WriteErased(cfg: Config, a: Sink, b: Sink, c: Category, x: Output, y: Output, fs: seq<Frame>)
    requires EraseSink(a) == EraseSink(b) && EraseLine(x) == EraseLine(y)
    ensures EraseSink(Write(cfg, a, c, x, fs)) == EraseSink(Write(cfg, b, c, y, fs))
  {
    var a', b' := Write(cfg, a, c, x, fs), Write(cfg, b, c, y, fs);
    assert |a.log| == |EraseLog(a.log)| && |b.log| == |EraseLog(b.log)|;
    assert EraseLog(a'.log) == EraseLog(a.log) + [EraseLine(Last(a'.log))];
    assert EraseLog(b'.log) == EraseLog(b.log) + [EraseLine(Last(b'.log))];
    assert EraseLine(Last(a'.log)) == EraseLine(Last(b'.log));
  }

  ghost predicate SameErased(x: seq<FileRecord>, y: seq<FileRecord>) {
    |x| == |y| && forall i :: 0 <= i < |x| ==> EraseRecord(x[i]) == EraseRecord(y[i])
  }

  lemma {:induction false} WriteAllErased(
    cfg: Config, modules: Modules, a: Sink, b: Sink, x: seq<FileRecord>, y: seq<FileRecord>)
    requires EraseSink(a) == EraseSink(b) && SameErased(x, y)
    ensures EraseSink(WriteAll(cfg, modules, a, x)) == EraseSink(WriteAll(cfg, modules, b, y))
    decreases |x|
  {
    if x != [] {
      WriteAllErased(cfg, modules, a, b, Prefix(x), Prefix(y));
      var p, q := Last(x), Last(y);
      assert EraseRecord(p) == EraseRecord(q);
      assert p.pid == q.pid && p.stack == q.stack;
      WriteErased(cfg, WriteAll(cfg, modules, a, Prefix(x)), WriteAll(cfg, modules, b, Prefix(y)), File,
                  FileLine(p, None), FileLine(q, None), Frames(modules, p.pid, p.stack));
    }
  }

  lemma OtherErased(cfg: Config, a: State, b: State, c: Category, e: Event)
    requires Erase(a) == Erase(b)
    ensures Erase(StepOther(cfg, a, c, e)) == Erase(StepOther(cfg, b, c, e))
  {
    var walks := Taken(a.cache.stacks, e.time, Owner(e), e.tid);
    var stack := AppendWalks(e.addresses, walks);
    var modules := if c.Image? then UpdateModules(a.modules, e) else a.modules;
    var line := EventLine(e, stack, walks, None);
    assert EraseSink(a.sink) == EraseSink(b.sink);
    WriteErased(cfg, a.sink, b.sink, c, line, line, Frames(modules, Owner(e), stack));
    var none := EventLine(e, [], [], None);
    WriteErased(cfg, a.sink, b.sink, c, none, none, []);
  }

  lemma FileErased(cfg: Config, a: State, b: State, e: Event)
    requires Erase(a) == Erase(b)
    ensures Erase(StepFile(cfg, a, e)) == Erase(StepFile(cfg, b, e))
  {
    assert EraseSink(a.sink) == EraseSink(b.sink);
    if e.opcode == FILE_IO_OP_END {
      WriteAllErased(cfg, a.modules, a.sink, b.sink,
                     EndIo(a.irps, e, a.sequence + 1).writes, EndIo(b.irps, e, b.sequence + 1).writes);
    } else if OwnerAllowed(cfg, a.tree, Owner(e)) {
      var io := BeginIo(a.irps, RecordFor(a, e));
      assert io == BeginIo(b.irps, RecordFor(b, e));
      WriteAllErased(cfg, a.modules, a.sink, b.sink, io.writes, io.writes);
    }
  }

  lemma WalkErased(cfg: Config, a: State, b: State, w: StackWalk)
    requires Erase(a) == Erase(b)
    ensures Erase(StepWalk(cfg, a, w)) == Erase(StepWalk(cfg, b, w))
  {
    assert EraseSink(a.sink) == EraseSink(b.sink);
    CacheErased(cfg, a.tree, a.cache, b.cache, w);
  }

  lemma CacheErased(cfg: Config, tree: set<Pid>, a: StackCache, b: StackCache, w: StackWalk)
    requires a.(dropped := 0) == b.(dropped := 0)
    ensures CacheOrDrop(cfg, tree, a, w).(dropped := 0) == CacheOrDrop(cfg, tree, b, w).(dropped := 0)
  {
  }

  lemma StepErased(cfg: Config, a: State, b: State, e: Event)
    requires Erase(a) == Erase(b)
    ensures Erase(Step(cfg, a, e)) == Erase(Step(cfg, b, e))
  {
    assert EraseSink(a.sink) == EraseSink(b.sink);
    if e.walk.Some? {
      WalkErased(cfg, a, b, e.walk.value);
    } else if e.category.Some? {
      var a1, b1 := StepImage(cfg, a, e.category.value, e), StepImage(cfg, b, e.category.value, e);
      assert Erase(a1) == Erase(b1);
      if e.category.value in cfg.presets {
        if KnownFileIo(e) {
          FileErased(cfg, a1, b1, e);
        } else {
          OtherErased(cfg, a1, b1, e.category.value, e);
        }
      }
    }
  }

  // ---------- a dropped event leaves no trace ----------

  lemma NoTarget(cfg: Config, s: State, w: StackWalk)
    requires Invariant(cfg, s) && !OwnerAllowed(cfg, s.tree, w.pid)
    ensures Target(cfg, s.irps.pending, w).None?
  {
    assert forall irp :: irp in s.irps.pending ==> !SameTarget(s.irps.pending[irp], w);
  }

  lemma DropIsInvisible(cfg: Config, s: State, tree: set<Pid>, e: Event)
    requires Invariant(cfg, s) && s.tree <= tree
    requires !Keeps(cfg, tree, e) && !AcceptedBy(cfg, s.tree, e)
    ensures Erase(Step(cfg, s, e)) == Erase(s)
  {
    if e.walk.Some? {
      NoTarget(cfg, s, e.walk.value);
    } else if e.category.Some? && e.category.value in cfg.presets && KnownFileIo(e) {
      RejectedTakesNothing(cfg, s, e);
    }
  }

  // ---------- the filter theorem ----------

  /** Event i belongs to the traced tree, but the filter judges it by a header process it does not follow. */
  predicate LostAt(cfg: Config, t: seq<Event>, i: nat)
    requires i < |t|
  {
    AcceptedAt(cfg, t, i) && cfg.root.Some? && t[i].headerPid !in FilterTree(cfg, t[..i])
  }

  function LostCount(cfg: Config, t: seq<Event>): nat
    decreases |t|
  {
    if t == [] then 0 else LostCount(cfg, Prefix(t)) + (if LostAt(cfg, t, |t| - 1) then 1 else 0)
  }

  lemma {:induction false} NoneLost(cfg: Config, t: seq<Event>)
    ensures LostCount(cfg, t) == 0 <==> forall i :: 0 <= i < |t| ==> !LostAt(cfg, t, i)
    decreases |t|
  {
    if t != [] {
      var u := Prefix(t);
      NoneLost(cfg, u);
      forall i | 0 <= i < |u|
        ensures LostAt(cfg, t, i) == LostAt(cfg, u, i)
      {
        assert u[..i] == t[..i];
      }
    }
  }

  lemma LostIsDropped(cfg: Config, t: seq<Event>)
    requires t != []
    ensures LostAt(cfg, t, |t| - 1) <==>
            AcceptedBy(cfg, Tree(cfg, Prefix(t)), Last(t)) && !Keeps(cfg, FilterTree(cfg, Prefix(t)), Last(t))
  {
    assert t[..|t| - 1] == Prefix(t);
  }

  lemma {:induction false} FilteredRun(cfg: Config, t: seq<Event>)
    requires LostCount(cfg, t) == 0
    ensures Erase(Run(cfg, Filter(cfg, t))) == Erase(Run(cfg, t))
    decreases |t|
  {
    if t != [] {
      var u, e := Prefix(t), Last(t);
      FilteredRun(cfg, u);
      LostIsDropped(cfg, t);
      RunTree(cfg, u);
      if Keeps(cfg, FilterTree(cfg, u), e) {
        assert Prefix(Filter(cfg, t)) == Filter(cfg, u);
        StepErased(cfg, Run(cfg, Filter(cfg, u)), Run(cfg, u), e);
      } else {
        assert Filter(cfg, t) == Filter(cfg, u);
        Reachable(cfg, u);
        FilterFollowsMore(cfg, u);
        DropIsInvisible(cfg, Run(cfg, u), FilterTree(cfg, u), e);
      }
    }
  }

  lemma FlushErased(cfg: Config, a: State, b: State)
    requires Erase(a) == Erase(b)
    ensures Erase(Flush(cfg, a)) == Erase(Flush(cfg, b))
  {
    assert EraseSink(a.sink) == EraseSink(b.sink);
    var rs := FlushIo(cfg, a.irps).writes;
    WriteAllErased(cfg, a.modules, a.sink, b.sink, rs, rs);
  }

  lemma {:induction false} AcceptedOfFiltered(cfg: Config, t: seq<Event>)
    ensures |Accepted(cfg, Filter(cfg, t))| + LostCount(cfg, t) == |Accepted(cfg, t)|
    decreases |t|
  {
    if t != [] {
      var u, e := Prefix(t), Last(t);
      AcceptedOfFiltered(cfg, u);
      LostIsDropped(cfg, t);
      FilteredTree(cfg, u);
      if Keeps(cfg, FilterTree(cfg, u), e) {
        assert Prefix(Filter(cfg, t)) == Filter(cfg, u);
      } else {
        assert Filter(cfg, t) == Filter(cfg, u);
      }
    }
  }

  /**
   * Filter-then-extract equals extract - the same lines in the same order, the same counters - if and
   * only if no file event of the traced tree sits under a header process the filter does not follow.
   */
  lemma FilterPreservesExtraction(cfg: Config, t: seq<Event>)
    ensures Erase(Extract(cfg, Filter(cfg, t))) == Erase(Extract(cfg, t)) <==>
            forall i :: 0 <= i < |t| ==> !LostAt(cfg, t, i)
  {
    NoneLost(cfg, t);
    if LostCount(cfg, t) == 0 {
      FilteredRun(cfg, t);
      FlushErased(cfg, Run(cfg, Filter(cfg, t)), Run(cfg, t));
    } else {
      AcceptedOfFiltered(cfg, t);
      PathsCounted(cfg, t);
      PathsCounted(cfg, Filter(cfg, t));
    }
  }

  /** Two lines are the same but for the running number of a completion. */
  predicate SameLine(a: Output, b: Output) {
    && a.frames == b.frames
    && a.FileLine? == b.FileLine?
    && (a.EventLine? ==> a == b)
    && (a.FileLine? ==>
          && b.record.(completion := a.record.completion) == a.record
          && a.record.completion.Some? == b.record.completion.Some?
          && (a.record.completion.Some? ==>
                a.record.completion.value.pid == b.record.completion.value.pid
                && a.record.completion.value.tid == b.record.completion.value.tid))
  }

  /** What equality of extractions comes to: the same lines in the same order, and every reported number. */
  lemma ErasedMeans(a: State, b: State)
    requires Erase(a) == Erase(b)
    ensures |a.sink.log| == |b.sink.log|
    ensures forall k :: 0 <= k < |a.sink.log| ==> SameLine(a.sink.log[k], b.sink.log[k])
    ensures a.sink.written == b.sink.written && a.sink.files == b.sink.files && a.sink.frames == b.sink.frames
    ensures a.paths == b.paths && a.irps == b.irps && a.tree == b.tree && a.modules == b.modules
    ensures a.cache.stacks == b.cache.stacks && a.cache.order == b.cache.order
  {
    assert |EraseLog(a.sink.log)| == |a.sink.log| && |EraseLog(b.sink.log)| == |b.sink.log|;
    assert EraseSink(a.sink) == EraseSink(b.sink);
    forall k | 0 <= k < |a.sink.log|
      ensures SameLine(a.sink.log[k], b.sink.log[k])
    {
      assert EraseLog(a.sink.log)[k] == EraseLine(a.sink.log[k]);
      assert EraseLog(b.sink.log)[k] == EraseLine(b.sink.log[k]);
      assert EraseLine(a.sink.log[k]) == EraseLine(b.sink.log[k]);
    }
  }

  /** If no event is lost, the filtered trace extracts to the same lines and the same reported numbers. */
  lemma FilteredExtractsTheSame(cfg: Config, t: seq<Event>)
    requires forall i :: 0 <= i < |t| ==> !LostAt(cfg, t, i)
    ensures var a, b := Extract(cfg, Filter(cfg, t)), Extract(cfg, t);
            && |a.sink.log| == |b.sink.log|
            && (forall k :: 0 <= k < |a.sink.log| ==> SameLine(a.sink.log[k], b.sink.log[k]))
            && a.sink.written == b.sink.written && a.sink.files == b.sink.files && a.sink.frames == b.sink.frames
            && a.paths == b.paths && a.irps == b.irps
  {
    FilterPreservesExtraction(cfg, t);
    ErasedMeans(Extract(cfg, Filter(cfg, t)), Extract(cfg, t));
  }

  /** In particular when every file event is logged under the process it belongs to. */
  lemma AgreeingHeadersSuffice(cfg: Config, t: seq<Event>)
    requires forall e :: e in t && KnownFileIo(e) ==> Owner(e) == e.headerPid
    ensures Erase(Extract(cfg, Filter(cfg, t))) == Erase(Extract(cfg, t))
  {
    forall i | 0 <= i < |t|
      ensures !LostAt(cfg, t, i)
    {
      assert t[i] in t;
      FilterFollowsMore(cfg, t[..i]);
    }
    FilterPreservesExtraction(cfg, t);
  }

  /** The condition is not idle: a write by process 1, logged under process 2, is lost by the filter. */
  lemma LossExample(opens: nat -> bool, walkOrder: set<Irp> -> seq<Irp>)
    ensures var cfg := Config({File}, Some(1), opens, walkOrder);
            var io := FileFields(Some("a.txt"), None, None, None, None, None);
            var e := Event(None, Some(File), true, 68, 0, 2, 7, Some(1), None, [], io, ImageFields(None, 0, "", false));
            Filter(cfg, [e]) == [] && Erase(Extract(cfg, Filter(cfg, [e]))) != Erase(Extract(cfg, [e]))
  {
    var cfg := Config({File}, Some(1), opens, walkOrder);
    var io := FileFields(Some("a.txt"), None, None, None, None, None);
    var e := Event(None, Some(File), true, 68, 0, 2, 7, Some(1), None, [], io, ImageFields(None, 0, "", false));
    assert Prefix([e]) == [] && [e][..0] == [];
    assert LostAt(cfg, [e], 0);
    FilterPreservesExtraction(cfg, [e]);
  }
}
