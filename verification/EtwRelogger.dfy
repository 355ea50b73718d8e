/** The relogger callback that writes the filtered trace, event by event. */
module EtwRelogger {
  import opened Options
  import opened EtwEvents
  import Spec = EtwSpec
  import Filters = EtwFilter

  class FilteringRelogger {
    const cfg: Config
    var processTree: set<Pid>
    var eventsWritten: nat
    var skippedEvents: nat
    var filesWritten: set<Category>
    ghost var injected: seq<Event>

    constructor (cfg: Config)
      ensures this.cfg == cfg && processTree == Init(cfg).tree
      ensures eventsWritten == 0 && skippedEvents == 0 && filesWritten == {} && injected == []
    {
      this.cfg := cfg;
      processTree := if cfg.root.Some? then {cfg.root.value} else {};
      eventsWritten, skippedEvents, filesWritten, injected := 0, 0, {}, [];
    }

    method ProcessTreeAllowsEvent(c: Category, e: Event) returns (allowed: bool)
      modifies this`processTree
      ensures allowed == Spec.Allows(cfg, old(processTree), c, e)
      ensures processTree == Spec.Grow(cfg, old(processTree), c, e)
    {
      if cfg.root.None? {
        return true;
      }
      if c.Process? {
        if Owner(e) in processTree || (e.parentPid.Some? && e.parentPid.value in processTree) {
          processTree := processTree + {Owner(e)};
          return true;
        }
        return false;
      }
      return e.headerPid in processTree;
    }

    /** `record` is None when no record can be read from the event; `injects` is the outcome of the injection. */
    method OnEvent(record: Option<Event>, injects: bool)
      modifies this
      ensures record.None? ==> processTree == old(processTree)
      ensures record.Some? ==> processTree == Filters.FilterGrow(cfg, old(processTree), record.value)
      ensures var kept := record.Some? && Filters.Keeps(cfg, old(processTree), record.value) && injects;
              && injected == old(injected) + (if kept then [record.value] else [])
              && eventsWritten == old(eventsWritten) + (if kept then 1 else 0)
              && skippedEvents == old(skippedEvents) + (if kept then 0 else 1)
              && filesWritten == old(filesWritten) +
                                 (if kept && record.value.category.Some? && record.value.category.value in cfg.presets
                                  then {record.value.category.value} else {})
    {
      if record.None? {
        skippedEvents := skippedEvents + 1;
        return;
      }
      var e := record.value;
      var keepForOutput := e.category.Some? && e.category.value in cfg.presets;
      var keepForModuleMap := e.category == Some(Image);
      var keepForStackWalk := e.walk.Some? && (cfg.root.None? || e.walk.value.pid in processTree);
      var keepForFileCompletion := File in cfg.presets && KnownFileIo(e) && e.opcode == FILE_IO_OP_END;
      if !keepForOutput && !keepForModuleMap && !keepForStackWalk && !keepForFileCompletion {
        skippedEvents := skippedEvents + 1;
        return;
      }
      if !keepForStackWalk && !keepForFileCompletion {
        var allowed := ProcessTreeAllowsEvent(e.category.value, e);
        if !allowed {
          skippedEvents := skippedEvents + 1;
          return;
        }
      }
      if injects {
        injected := injected + [e];
        eventsWritten := eventsWritten + 1;
        if keepForOutput {
          filesWritten := filesWritten + {e.category.value};
        }
      } else {
        skippedEvents := skippedEvents + 1;
      }
    }
  }

  /** What the relogger hands over: a record unless it cannot be read, and whether its injection succeeds. */
  datatype Arrival = Arrival(record: Option<Event>, injects: bool)

  /** The records that could be read, in order. */
  function Records(arrivals: seq<Arrival>): seq<Event> {
    if arrivals == [] then []
    else
      var a := Spec.Last(arrivals);
      Records(Spec.Prefix(arrivals)) + if a.record.Some? then [a.record.value] else []
  }

  /** The last arrival is one that the filter keeps. */
  predicate KeepsLast(cfg: Config, arrivals: seq<Arrival>)
    requires arrivals != []
  {
    var record := Spec.Last(arrivals).record;
    record.Some? && Filters.Keeps(cfg, Filters.FilterTree(cfg, Records(Spec.Prefix(arrivals))), record.value)
  }

  /** The events of the filtered trace: kept by the filter, and their injection succeeded. */
  function Injected(cfg: Config, arrivals: seq<Arrival>): seq<Event>
    decreases |arrivals|
  {
    if arrivals == [] then []
    else
      var a := Spec.Last(arrivals);
      Injected(cfg, Spec.Prefix(arrivals)) +
      if KeepsLast(cfg, arrivals) && a.injects then [a.record.value] else []
  }

  /** The categories that the events of a trace contribute to the output. */
  function OutputCategories(cfg: Config, es: seq<Event>): set<Category> {
    if es == [] then {}
    else
      var c := Spec.Last(es).category;
      OutputCategories(cfg, Spec.Prefix(es)) + if c.Some? && c.value in cfg.presets then {c.value} else {}
  }

  /** A category has an output file exactly when it is enabled and some event of it was injected. */
  lemma {:induction false} OutputCategoriesAre(cfg: Config, es: seq<Event>, c: Category)
    ensures c in OutputCategories(cfg, es) <==> c in cfg.presets && exists e :: e in es && e.category == Some(c)
    decreases |es|
  {
    if es != [] {
      OutputCategoriesAre(cfg, Spec.Prefix(es), c);
      assert es == Spec.Prefix(es) + [Spec.Last(es)];
    }
  }

  lemma OutputSnoc(cfg: Config, es: seq<Event>, e: Event)
    ensures OutputCategories(cfg, es + [e]) ==
            OutputCategories(cfg, es) +
            if e.category.Some? && e.category.value in cfg.presets then {e.category.value} else {}
  {
    assert Spec.Prefix(es + [e]) == es;
  }

  lemma NextTree(cfg: Config, arrivals: seq<Arrival>, i: nat)
    requires i < |arrivals|
    ensures var record, tree := arrivals[i].record, Filters.FilterTree(cfg, Records(arrivals[..i]));
            Filters.FilterTree(cfg, Records(arrivals[..i + 1])) ==
            if record.Some? then Filters.FilterGrow(cfg, tree, record.value) else tree
  {
    var record, before := arrivals[i].record, Records(arrivals[..i]);
    assert Spec.Prefix(arrivals[..i + 1]) == arrivals[..i];
    if record.Some? {
      assert Spec.Prefix(before + [record.value]) == before;
    } else {
      assert before + [] == before;
    }
  }

  lemma NextArrival(cfg: Config, arrivals: seq<Arrival>, i: nat)
    requires i < |arrivals|
    ensures var a, tree := arrivals[i], Filters.FilterTree(cfg, Records(arrivals[..i]));
            var kept := a.record.Some? && Filters.Keeps(cfg, tree, a.record.value) && a.injects;
            Injected(cfg, arrivals[..i + 1]) == Injected(cfg, arrivals[..i]) + (if kept then [a.record.value] else [])
  {
    assert Spec.Prefix(arrivals[..i + 1]) == arrivals[..i];
  }

  lemma NextOutput(cfg: Config, arrivals: seq<Arrival>, i: nat)
    requires i < |arrivals|
    ensures var a := arrivals[i];
            var kept := a.record.Some? && a.injects &&
                        Filters.Keeps(cfg, Filters.FilterTree(cfg, Records(arrivals[..i])), a.record.value);
            OutputCategories(cfg, Injected(cfg, arrivals[..i + 1])) ==
            OutputCategories(cfg, Injected(cfg, arrivals[..i])) +
            (if kept && a.record.value.category.Some? && a.record.value.category.value in cfg.presets
             then {a.record.value.category.value} else {})
  {
    NextArrival(cfg, arrivals, i);
    if arrivals[i].record.Some? {
      OutputSnoc(cfg, Injected(cfg, arrivals[..i]), arrivals[i].record.value);
    }
    assert Injected(cfg, arrivals[..i]) + [] == Injected(cfg, arrivals[..i]);
  }

  /** Filters a whole trace: the tree follows every record that can be read, injected or not. */
  method FilterTraceFile(cfg: Config, arrivals: seq<Arrival>) returns (relogger: FilteringRelogger)
    ensures fresh(relogger) && relogger.injected == Injected(cfg, arrivals)
    ensures relogger.processTree == Filters.FilterTree(cfg, Records(arrivals))
    ensures relogger.eventsWritten == |Injected(cfg, arrivals)|
    ensures relogger.eventsWritten + relogger.skippedEvents == |arrivals|
    ensures relogger.filesWritten == OutputCategories(cfg, Injected(cfg, arrivals))
  {
    relogger := new FilteringRelogger(cfg);
    for i := 0 to |arrivals|
      invariant fresh(relogger) && relogger.cfg == cfg
      invariant relogger.processTree == Filters.FilterTree(cfg, Records(arrivals[..i]))
      invariant relogger.injected == Injected(cfg, arrivals[..i])
      invariant relogger.eventsWritten == |relogger.injected| && relogger.eventsWritten + relogger.skippedEvents == i
      invariant relogger.filesWritten == OutputCategories(cfg, Injected(cfg, arrivals[..i]))
    {
      NextArrival(cfg, arrivals, i);
      NextTree(cfg, arrivals, i);
      NextOutput(cfg, arrivals, i);
      relogger.OnEvent(arrivals[i].record, arrivals[i].injects);
    }
    assert arrivals[..|arrivals|] == arrivals;
  }

  lemma FilterStep(cfg: Config, arrivals: seq<Arrival>)
    requires arrivals != []
    ensures Filters.Filter(cfg, Records(arrivals)) ==
            Filters.Filter(cfg, Records(Spec.Prefix(arrivals))) +
            if KeepsLast(cfg, arrivals) then [Spec.Last(arrivals).record.value] else []
  {
    var before, a := Records(Spec.Prefix(arrivals)), Spec.Last(arrivals);
    if a.record.Some? {
      assert Spec.Prefix(before + [a.record.value]) == before;
    } else {
      assert before + [] == before;
    }
  }

  lemma {:induction false} InjectedAreKept(cfg: Config, arrivals: seq<Arrival>)
    ensures |Injected(cfg, arrivals)| <= |Filters.Filter(cfg, Records(arrivals))|
    decreases |arrivals|
  {
    if arrivals != [] {
      InjectedAreKept(cfg, Spec.Prefix(arrivals));
      FilterStep(cfg, arrivals);
    }
  }

  /** Some event that the filter keeps could not be injected. */
  predicate Fails(cfg: Config, arrivals: seq<Arrival>)
    decreases |arrivals|
  {
    arrivals != [] &&
    (Fails(cfg, Spec.Prefix(arrivals)) || (KeepsLast(cfg, arrivals) && !Spec.Last(arrivals).injects))
  }

  /** The trace written is the filter of the records read if and only if every kept event could be injected. */
  lemma {:induction false} InjectedIsFilter(cfg: Config, arrivals: seq<Arrival>)
    ensures Injected(cfg, arrivals) == Filters.Filter(cfg, Records(arrivals)) <==> !Fails(cfg, arrivals)
    ensures Fails(cfg, arrivals) ==> |Injected(cfg, arrivals)| < |Filters.Filter(cfg, Records(arrivals))|
    decreases |arrivals|
  {
    if arrivals != [] {
      InjectedIsFilter(cfg, Spec.Prefix(arrivals));
      InjectedAreKept(cfg, Spec.Prefix(arrivals));
      FilterStep(cfg, arrivals);
    }
  }
}
