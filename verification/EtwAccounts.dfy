/**
 * The books of an extraction: which events outside the IRP route are reported, what the output counters
 * say about the lines written, and that every event of the trace is accounted for once.
 */
module EtwAccounts {
  import opened Options
  import opened EtwEvents
  import opened EtwSpec
  import opened EtwTree
  import opened EtwIrps
  import opened EtwStacks
  import opened Totals

  // ---------- which events are reported ----------

  /** An enabled event outside the IRP route. */
  predicate IsOther(cfg: Config, e: Event) {
    e.walk.None? && e.category.Some? && e.category.value in cfg.presets && !KnownFileIo(e)
  }

  /** A process event counts if its process belongs to the tree after it, any other if its header process does before it. */
  predicate ReportedAt(cfg: Config, t: seq<Event>, i: nat)
    requires i < |t|
  {
    && IsOther(cfg, t[i])
    && (cfg.root.None? ||
        if t[i].category == Some(Process) then Owner(t[i]) in Tree(cfg, t[..i + 1])
        else t[i].headerPid in Tree(cfg, t[..i]))
  }

  function Reported(cfg: Config, t: seq<Event>): seq<Event>
    decreases |t|
  {
    if t == [] then [] else Reported(cfg, Prefix(t)) + (if ReportedAt(cfg, t, |t| - 1) then [Last(t)] else [])
  }

  function EventsOf(log: seq<Output>): seq<Event> {
    if log == [] then []
    else EventsOf(Prefix(log)) + (if Last(log).EventLine? then [Last(log).event] else [])
  }

  lemma EventsSnoc(log: seq<Output>, o: Output)
    ensures EventsOf(log + [o]) == EventsOf(log) + (if o.EventLine? then [o.event] else [])
  {
    assert Prefix(log + [o]) == log;
  }

  lemma {:induction false} WriteAllEvents(cfg: Config, modules: Modules, k: Sink, rs: seq<FileRecord>)
    ensures EventsOf(WriteAll(cfg, modules, k, rs).log) == EventsOf(k.log)
    decreases |rs|
  {
    if rs != [] {
      var k1, k2 := WriteAll(cfg, modules, k, Prefix(rs)), WriteAll(cfg, modules, k, rs);
      WriteAllEvents(cfg, modules, k, Prefix(rs));
      assert k2.log == k1.log + [Last(k2.log)];
      EventsSnoc(k1.log, Last(k2.log));
    }
  }

  lemma OtherEvents(cfg: Config, s: State, c: Category, e: Event)
    ensures EventsOf(StepOther(cfg, s, c, e).sink.log) ==
            EventsOf(s.sink.log) + if Allows(cfg, s.tree, c, e) then [e] else []
  {
    if Allows(cfg, s.tree, c, e) {
      var log' := StepOther(cfg, s, c, e).sink.log;
      assert log' == s.sink.log + [Last(log')];
      EventsSnoc(s.sink.log, Last(log'));
    }
  }

  lemma FileEvents(cfg: Config, s: State, e: Event)
    requires IsFileIo(cfg, e)
    ensures EventsOf(StepFile(cfg, s, e).sink.log) == EventsOf(s.sink.log)
  {
    WriteAllEvents(cfg, s.modules, s.sink, IrpStepOf(cfg, s, e).writes);
  }

  lemma StepEvents(cfg: Config, s: State, e: Event)
    ensures EventsOf(Step(cfg, s, e).sink.log) ==
            EventsOf(s.sink.log) +
            if IsOther(cfg, e) && Allows(cfg, s.tree, e.category.value, e) then [e] else []
  {
    if IsOther(cfg, e) {
      OtherEvents(cfg, StepImage(cfg, s, e.category.value, e), e.category.value, e);
    } else if IsFileIo(cfg, e) {
      FileEvents(cfg, s, e);
    }
  }

  lemma AllowedIsReported(cfg: Config, t: seq<Event>)
    requires t != []
    ensures ReportedAt(cfg, t, |t| - 1) <==>
            IsOther(cfg, Last(t)) && Allows(cfg, Tree(cfg, Prefix(t)), Last(t).category.value, Last(t))
  {
    assert t[..|t| - 1] == Prefix(t) && t[..|t| - 1 + 1] == t;
  }

  lemma {:induction false} RunReports(cfg: Config, t: seq<Event>)
    ensures EventsOf(Run(cfg, t).sink.log) == Reported(cfg, t)
    decreases |t|
  {
    if t != [] {
      RunReports(cfg, Prefix(t));
      RunTree(cfg, Prefix(t));
      AllowedIsReported(cfg, t);
      StepEvents(cfg, Run(cfg, Prefix(t)), Last(t));
    }
  }

  /** The event lines of a finished extraction are the reported events, each once and in trace order. */
  lemma EventLinesAreReported(cfg: Config, t: seq<Event>)
    ensures EventsOf(Extract(cfg, t).sink.log) == Reported(cfg, t)
  {
    var s := Run(cfg, t);
    RunReports(cfg, t);
    WriteAllEvents(cfg, s.modules, s.sink, FlushIo(cfg, s.irps).writes);
  }

  // ---------- the output counters ----------

  function LineCategory(o: Output): Option<Category> {
    if o.FileLine? then Some(File) else o.event.category
  }

  function WasWritten(): Output -> nat {
    (o: Output) => if o.frames.Some? then 1 else 0
  }

  function WasLost(): Output -> nat {
    (o: Output) => if o.frames.None? then 1 else 0
  }

  /** Attempts, written events and files agree with the log of writer calls. */
  ghost predicate SinkAgrees(k: Sink) {
    && k.attempts == |k.log|
    && k.written == Sum(k.log, WasWritten())
    && (forall c :: c in k.files <==> exists o :: o in k.log && o.frames.Some? && LineCategory(o) == Some(c))
  }

  lemma WriteAgrees(cfg: Config, k: Sink, c: Category, line: Output, fs: seq<Frame>)
    requires SinkAgrees(k) && LineCategory(line) == Some(c)
    ensures SinkAgrees(Write(cfg, k, c, line, fs))
    ensures var k' := Write(cfg, k, c, line, fs);
            k'.skipped + Sum(k.log, WasLost()) == k.skipped + Sum(k'.log, WasLost())
  {
    var k' := Write(cfg, k, c, line, fs);
    var o := Last(k'.log);
    assert k'.log == k.log + [o];
    SumAppend(k.log, [o], WasWritten());
    SumAppend(k.log, [o], WasLost());
    SumOne(o, WasWritten());
    SumOne(o, WasLost());
    assert o.frames.Some? ==> o in k'.log && LineCategory(o) == Some(c);
    assert forall p :: p in k.log ==> p in k'.log;
  }

  /** The sink agrees with its log, and gained as many skipped events as lost lines. */
  ghost predicate Gains(k: Sink, k': Sink, skipped: nat) {
    SinkAgrees(k') && k'.skipped + Sum(k.log, WasLost()) == k.skipped + Sum(k'.log, WasLost()) + skipped
  }

  lemma {:induction false} WriteAllAgrees(cfg: Config, modules: Modules, k: Sink, rs: seq<FileRecord>)
    requires SinkAgrees(k)
    ensures Gains(k, WriteAll(cfg, modules, k, rs), 0)
    decreases |rs|
  {
    if rs != [] {
      var r := Last(rs);
      WriteAllAgrees(cfg, modules, k, Prefix(rs));
      WriteAgrees(cfg, WriteAll(cfg, modules, k, Prefix(rs)), File, FileLine(r, None), Frames(modules, r.pid, r.stack));
    }
  }

  lemma OtherAgrees(cfg: Config, s: State, c: Category, e: Event)
    requires SinkAgrees(s.sink) && e.category == Some(c)
    ensures Gains(s.sink, StepOther(cfg, s, c, e).sink, if Allows(cfg, s.tree, c, e) then 0 else 1)
  {
    var walks := Taken(s.cache.stacks, e.time, Owner(e), e.tid);
    var stack := AppendWalks(e.addresses, walks);
    var modules := if c.Image? then UpdateModules(s.modules, e) else s.modules;
    WriteAgrees(cfg, s.sink, c, EventLine(e, stack, walks, None), Frames(modules, Owner(e), stack));
    WriteAgrees(cfg, s.sink, c, EventLine(e, [], [], None), []);
  }

  lemma FileAgrees(cfg: Config, s: State, e: Event)
    requires SinkAgrees(s.sink) && IsFileIo(cfg, e)
    ensures Gains(s.sink, StepFile(cfg, s, e).sink, if IsOpEnd(cfg, e) || AcceptedBy(cfg, s.tree, e) then 0 else 1)
  {
    WriteAllAgrees(cfg, s.modules, s.sink, IrpStepOf(cfg, s, e).writes);
  }

  /** Each event is skipped unless it is a walk, an OP_END, an accepted file event or a reported event. */
  predicate Skipped(cfg: Config, s: State, e: Event) {
    && e.walk.None?
    && !IsOpEnd(cfg, e)
    && !AcceptedBy(cfg, s.tree, e)
    && !(IsOther(cfg, e) && Allows(cfg, s.tree, e.category.value, e))
  }

  lemma StepAgrees(cfg: Config, s: State, e: Event)
    requires SinkAgrees(s.sink)
    ensures Gains(s.sink, Step(cfg, s, e).sink, if Skipped(cfg, s, e) then 1 else 0)
  {
    if IsOther(cfg, e) {
      OtherAgrees(cfg, StepImage(cfg, s, e.category.value, e), e.category.value, e);
    } else if IsFileIo(cfg, e) {
      FileAgrees(cfg, s, e);
    }
  }

  /**
   * In every reachable state the output counters agree with the lines, and every event is a stack walk, an
   * OP_END, an accepted file event, a reported event or skipped; lines that found no file count as skipped too.
   */
  lemma {:induction false} EventAccounting(cfg: Config, t: seq<Event>)
    ensures var k := Run(cfg, t).sink;
            && SinkAgrees(k)
            && |t| + Sum(k.log, WasLost()) ==
               k.skipped + |Walks(t)| + OpEndCount(cfg, t) + |Accepted(cfg, t)| + |Reported(cfg, t)|
    decreases |t|
  {
    if t != [] {
      var u, e := Prefix(t), Last(t);
      EventAccounting(cfg, u);
      RunTree(cfg, u);
      AllowedIsReported(cfg, t);
      StepAgrees(cfg, Run(cfg, u), e);
    }
  }

  /** The same for a finished extraction. */
  lemma EventAccountingAtEnd(cfg: Config, t: seq<Event>)
    ensures var k := Extract(cfg, t).sink;
            && SinkAgrees(k)
            && |t| + Sum(k.log, WasLost()) ==
               k.skipped + |Walks(t)| + OpEndCount(cfg, t) + |Accepted(cfg, t)| + |Reported(cfg, t)|
  {
    var s := Run(cfg, t);
    EventAccounting(cfg, t);
    WriteAllAgrees(cfg, s.modules, s.sink, FlushIo(cfg, s.irps).writes);
  }

  // ---------- files that open ----------

  /** The n-th writer call leaves a line exactly when its file opens. */
  predicate OpensAgree(cfg: Config, k: Sink) {
    k.attempts == |k.log| && forall n :: 0 <= n < |k.log| ==> (k.log[n].frames.Some? <==> cfg.opens(n))
  }

  lemma WriteOpens(cfg: Config, k: Sink, c: Category, line: Output, fs: seq<Frame>)
    requires OpensAgree(cfg, k)
    ensures OpensAgree(cfg, Write(cfg, k, c, line, fs))
  {
  }

  lemma {:induction false} WriteAllOpens(cfg: Config, modules: Modules, k: Sink, rs: seq<FileRecord>)
    requires OpensAgree(cfg, k)
    ensures OpensAgree(cfg, WriteAll(cfg, modules, k, rs))
    decreases |rs|
  {
    if rs != [] {
      WriteAllOpens(cfg, modules, k, Prefix(rs));
    }
  }

  lemma FileOpens(cfg: Config, s: State, e: Event)
    requires OpensAgree(cfg, s.sink) && IsFileIo(cfg, e)
    ensures OpensAgree(cfg, StepFile(cfg, s, e).sink)
  {
    WriteAllOpens(cfg, s.modules, s.sink, IrpStepOf(cfg, s, e).writes);
  }

  lemma StepOpens(cfg: Config, s: State, e: Event)
    requires OpensAgree(cfg, s.sink)
    ensures OpensAgree(cfg, Step(cfg, s, e).sink)
  {
    if IsFileIo(cfg, e) {
      FileOpens(cfg, s, e);
    } else if IsOther(cfg, e) {
      OtherOpens(cfg, StepImage(cfg, s, e.category.value, e), e.category.value, e);
    }
  }

  lemma OtherOpens(cfg: Config, s: State, c: Category, e: Event)
    requires OpensAgree(cfg, s.sink)
    ensures OpensAgree(cfg, StepOther(cfg, s, c, e).sink)
  {
    if Allows(cfg, s.tree, c, e) {
      if cfg.opens(s.sink.attempts) {
        var walks := Taken(s.cache.stacks, e.time, Owner(e), e.tid);
        var stack := AppendWalks(e.addresses, walks);
        var modules := if c.Image? then UpdateModules(s.modules, e) else s.modules;
        WriteOpens(cfg, s.sink, c, EventLine(e, stack, walks, None), Frames(modules, Owner(e), stack));
      } else {
        WriteOpens(cfg, s.sink, c, EventLine(e, [], [], None), []);
      }
    }
  }

  lemma {:induction false} RunOpens(cfg: Config, t: seq<Event>)
    ensures OpensAgree(cfg, Run(cfg, t).sink)
    decreases |t|
  {
    if t != [] {
      RunOpens(cfg, Prefix(t));
      StepOpens(cfg, Run(cfg, Prefix(t)), Last(t));
    }
  }

  /** In a finished extraction a writer call leaves its line exactly when its file opened. */
  lemma LinesFollowOpens(cfg: Config, t: seq<Event>)
    ensures var log := Extract(cfg, t).sink.log;
            forall n :: 0 <= n < |log| ==> (log[n].frames.Some? <==> cfg.opens(n))
  {
    var s := Run(cfg, t);
    RunOpens(cfg, t);
    WriteAllOpens(cfg, s.modules, s.sink, FlushIo(cfg, s.irps).writes);
  }

  lemma {:induction false} AllWritten(log: seq<Output>)
    requires forall n :: 0 <= n < |log| ==> log[n].frames.Some?
    ensures Sum(log, WasWritten()) == |log| && Sum(log, WasLost()) == 0
    decreases |log|
  {
    if log != [] {
      AllWritten(log[..|log| - 1]);
    }
  }

  /**
   * When every file opens, every writer call is a written event, nothing is lost, and the categories
   * with a file are those of the lines.
   */
  lemma AllOpenAllWritten(cfg: Config, t: seq<Event>)
    requires forall n: nat :: cfg.opens(n)
    ensures var k := Extract(cfg, t).sink;
            && k.written == |k.log|
            && |t| == k.skipped + |Walks(t)| + OpEndCount(cfg, t) + |Accepted(cfg, t)| + |Reported(cfg, t)|
            && forall c :: c in k.files <==> exists o :: o in k.log && LineCategory(o) == Some(c)
  {
    var k := Extract(cfg, t).sink;
    EventAccountingAtEnd(cfg, t);
    LinesFollowOpens(cfg, t);
    AllWritten(k.log);
    assert forall o :: o in k.log ==> o.frames.Some?;
  }
}
