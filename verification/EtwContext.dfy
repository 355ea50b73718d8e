/**
 * The extraction context as the program keeps it: tables, queues and counters updated in place, event by
 * event. Every method is proved to change the abstract state as EtwSpec says.
 */
module EtwContext {
  import opened Options
  import opened EtwEvents
  import Spec = EtwSpec

  /** Appends, without duplicates, the nonzero addresses of `source`. */
  method AppendStackAddresses(target: seq<Address>, source: seq<Address>) returns (r: seq<Address>)
    ensures r == Spec.AppendStack(target, source)
  {
    r := target;
    for i := 0 to |source|
      invariant Spec.AppendStack(r, source[i..]) == Spec.AppendStack(target, source)
    {
      assert source[i..][1..] == source[i + 1..];
      if source[i] != 0 && source[i] !in r {
        r := r + [source[i]];
      }
    }
  }

  method FindWalk(ws: seq<StackWalk>, pid: Pid, tid: Option<nat>) returns (k: nat)
    ensures k == Spec.FirstWalk(ws, pid, tid)
  {
    k := 0;
    while k < |ws| && !(ws[k].pid == pid && (tid.None? || ws[k].tid == tid.value))
      invariant k <= |ws|
      invariant Spec.FirstWalk(ws, pid, tid) == k + Spec.FirstWalk(ws[k..], pid, tid)
    {
      assert ws[k..][1..] == ws[k + 1..];
      k := k + 1;
    }
  }

  method FindInModules(ms: seq<Module>, address: Address) returns (m: Option<Module>)
    ensures m == Spec.FindIn(ms, address)
  {
    var k := 0;
    while k < |ms|
      invariant k <= |ms|
      invariant forall j :: 0 <= j < k ==> !ms[j].Contains(address)
    {
      if address >= ms[k].base && ms[k].size != 0 && address - ms[k].base < ms[k].size {
        return Some(ms[k]);
      }
      k := k + 1;
    }
    m := None;
  }

  method RemoveBase(ms: seq<Module>, base: Address) returns (kept: seq<Module>)
    ensures kept == Spec.Without(ms, base)
  {
    kept := [];
    for i := 0 to |ms|
      invariant kept == Spec.Without(ms[..i], base)
    {
      assert ms[..i + 1][..i] == ms[..i];
      if ms[i].base != base {
        kept := kept + [ms[i]];
      }
    }
    assert ms[..|ms|] == ms;
  }

  lemma AppendOneWalk(own: seq<Address>, walks: seq<StackWalk>)
    requires |walks| <= 1
    ensures Spec.AppendWalks(own, walks) == if walks == [] then own else Spec.AppendStack(own, walks[0].addresses)
  {
    if walks != [] {
      assert walks[..0] == [];
    }
  }

  lemma WriteOne(cfg: Config, modules: Modules, k: Sink, r: FileRecord)
    ensures Spec.WriteAll(cfg, modules, k, [r]) == Spec.WriteFile(cfg, modules, k, r)
  {
    assert Spec.Prefix([r]) == [];
  }

  const NO_PATHS := PathTable(map[], map[], 0, 0)

  /** The tables and counters are grouped by what they serve; each is reassigned in place as events come. */
  class ExtractionContext {
    const cfg: Config
    var tree: set<Pid>
    var modules: map<Pid, seq<Module>>
    var cache: StackCache
    var irps: IrpTable
    var paths: PathTable
    var sink: Sink
    var sequence: nat

    ghost function Abstract(): State
      reads this
    {
      State(tree, modules, cache, irps, paths, sink, sequence)
    }

    constructor (cfg: Config)
      ensures this.cfg == cfg && Abstract() == Init(cfg)
    {
      this.cfg := cfg;
      tree := if cfg.root.Some? then {cfg.root.value} else {};
      modules := map[];
      cache := StackCache(map[], [], 0);
      irps := IrpTable(map[], {}, 0, 0, 0, 0);
      paths := PathTable(map[], map[], 0, 0);
      sink := Sink([], 0, 0, {}, 0, FrameCounts(0, 0, 0));
      sequence := 0;
    }

    method SkipEvent()
      modifies this`sink
      ensures sink == Spec.Skip(old(sink))
    {
      sink := sink.(skipped := sink.skipped + 1);
    }

    method ProcessTreeAllowsEvent(c: Category, e: Event) returns (allowed: bool)
      modifies this`tree
      ensures allowed == Spec.Allows(cfg, old(tree), c, e)
      ensures tree == Spec.Grow(cfg, old(tree), c, e)
    {
      if cfg.root.None? {
        return true;
      }
      if c.Process? {
        var processPid := Owner(e);
        var parentInTree := e.parentPid.Some? && e.parentPid.value in tree;
        if processPid in tree || parentInTree {
          tree := tree + {processPid};
          return true;
        }
        return false;
      }
      return e.headerPid in tree;
    }

    method UpdateModuleMap(e: Event)
      modifies this`modules
      ensures modules == Spec.UpdateModules(old(modules), e)
    {
      if e.image.base.None? {
        return;
      }
      var pid := Owner(e);
      var kept := RemoveBase(if pid in modules then modules[pid] else [], e.image.base.value);
      if !e.image.unload {
        kept := kept + [Module(e.image.base.value, e.image.size, e.image.name)];
      }
      modules := modules[pid := kept];
    }

    method FindModule(pid: Pid, address: Address) returns (m: Option<Module>)
      ensures m == Spec.FindModule(modules, pid, address)
    {
      if pid in modules {
        m := FindInModules(modules[pid], address);
        if m.Some? {
          return;
        }
      }
      m := None;
      if 0 in modules {
        m := FindInModules(modules[0], address);
      }
    }

    /** Resolves each address and reverses the list; the counters follow the addresses one by one. */
    method StackFramesFromAddresses(addresses: seq<Address>, pid: Pid) returns (frames: seq<Frame>)
      modifies this`sink
      ensures frames == Spec.Frames(modules, pid, addresses)
      ensures sink == old(sink).(frames := Spec.CountFrames(old(sink).frames, frames))
    {
      frames := [];
      for i := 0 to |addresses|
        invariant frames == Spec.Frames(modules, pid, addresses[..i])
        invariant sink == old(sink).(frames := Spec.CountFrames(old(sink).frames, frames))
      {
        var a := addresses[i];
        var m := FindModule(pid, a);
        ghost var before := frames;
        var n := sink.frames;
        if m.Some? && a >= m.value.base {
          frames := [Resolved(m.value.name, a - m.value.base)] + frames;
          n := n.(resolved := n.resolved + 1);
        } else {
          frames := [Raw(a)] + frames;
          n := n.(unresolved := n.unresolved + 1);
        }
        sink := sink.(frames := n.(total := n.total + 1));
        assert frames[1..] == before;
        assert Spec.Prefix(addresses[..i + 1]) == addresses[..i];
      }
      assert addresses[..|addresses|] == addresses;
    }

    /** Hands out the cached walk of the exact thread, or else one of the process. */
    method TakeMatchingPendingStack(time: int, pid: Pid, tid: nat) returns (walks: seq<StackWalk>)
      modifies this`cache
      ensures walks == Spec.Taken(old(cache).stacks, time, pid, tid)
      ensures cache == old(cache).(stacks := Spec.AfterTake(old(cache).stacks, time, pid, tid))
    {
      if time !in cache.stacks {
        return [];
      }
      var pending := cache.stacks[time];
      var selected := FindWalk(pending, pid, Some(tid));
      if selected == |pending| {
        selected := FindWalk(pending, pid, None);
      }
      if selected == |pending| {
        return [];
      }
      walks := [pending[selected]];
      pending := pending[..selected] + pending[selected + 1..];
      if pending == [] {
        cache := cache.(stacks := cache.stacks - {time});
      } else {
        cache := cache.(stacks := cache.stacks[time := pending]);
      }
    }

    /** The event's own addresses, then those of the walk that waited for it. */
    method TakeStackFor(e: Event) returns (walks: seq<StackWalk>, stack: seq<Address>)
      modifies this`cache
      ensures walks == Spec.Taken(old(cache).stacks, e.time, Owner(e), e.tid)
      ensures cache == old(cache).(stacks := Spec.AfterTake(old(cache).stacks, e.time, Owner(e), e.tid))
      ensures stack == Spec.AppendWalks(e.addresses, walks)
    {
      walks := TakeMatchingPendingStack(e.time, Owner(e), e.tid);
      AppendOneWalk(e.addresses, walks);
      stack := e.addresses;
      if walks != [] {
        stack := AppendStackAddresses(stack, walks[0].addresses);
      }
    }

    method CachePendingStack(w: StackWalk)
      modifies this`cache
      ensures cache == Spec.CacheOrDrop(cfg, tree, old(cache), w)
    {
      if cfg.root.Some? && w.pid !in tree {
        cache := cache.(dropped := cache.dropped + 1);
        return;
      }
      if w.time !in cache.stacks {
        if |cache.order| >= MAX_PENDING_STACK_TIMESTAMPS {
          var oldest := cache.order[0];
          cache := cache.(order := cache.order[1..]);
          if oldest in cache.stacks {
            cache := cache.(dropped := cache.dropped + |cache.stacks[oldest]|, stacks := cache.stacks - {oldest});
          }
          assert cache.stacks == old(cache).stacks - {oldest};
        }
        cache := cache.(order := cache.order + [w.time]);
      }
      var pending := if w.time in cache.stacks then cache.stacks[w.time] else [];
      if |pending| >= MAX_PENDING_STACKS_PER_TIMESTAMP {
        cache := cache.(dropped := cache.dropped + 1);
        return;
      }
      cache := cache.(stacks := cache.stacks[w.time := pending + [w]]);
    }

    method AttachTo(irp: Irp, w: StackWalk)
      requires irp in irps.pending
      modifies this`irps
      ensures irps == old(irps).(pending := old(irps).pending[irp := Spec.Attached(old(irps).pending[irp], w)])
    {
      var r := irps.pending[irp];
      var stack := AppendStackAddresses(r.stack, w.addresses);
      irps := irps.(pending := irps.pending[irp := r.(stack := stack, walks := r.walks + [w])]);
    }

    /** Iterates the IRP table: the first record of the exact thread wins, else the last one of the process. */
    method AttachStackToPendingFile(w: StackWalk) returns (attached: bool)
      modifies this`irps
      ensures var target := Spec.Target(cfg, old(irps).pending, w);
              && attached == target.Some?
              && irps == if attached
                         then old(irps).(pending := old(irps).pending[
                                                      target.value := Spec.Attached(old(irps).pending[target.value], w)])
                         else old(irps)
    {
      var keys := cfg.walkOrder(irps.pending.Keys);
      var fallback: Option<Irp> := None;
      for i := 0 to |keys|
        invariant irps == old(irps)
        invariant fallback.Some? ==> fallback.value in irps.pending
        invariant Spec.Target(cfg, irps.pending, w) == Spec.AttachTarget(irps.pending, keys[i..], fallback, w)
      {
        assert keys[i..][1..] == keys[i + 1..];
        if keys[i] in irps.pending {
          var r := irps.pending[keys[i]];
          if r.origin.time == w.time && r.pid == w.pid {
            if r.origin.tid == w.tid {
              AttachTo(keys[i], w);
              return true;
            }
            fallback := Some(keys[i]);
          }
        }
      }
      if fallback.Some? {
        AttachTo(fallback.value, w);
        return true;
      }
      return false;
    }

    method ProcessStackWalkEvent(w: StackWalk)
      modifies this`irps, this`cache
      ensures Abstract() == Spec.StepWalk(cfg, old(Abstract()), w)
    {
      var attached := AttachStackToPendingFile(w);
      if !attached {
        CachePendingStack(w);
      }
    }

    method CacheFilePath(e: Event)
      modifies this`paths
      ensures paths == Spec.CachePath(old(paths), e)
    {
      if e.io.path.None? || e.io.path.value == "" {
        return;
      }
      if e.io.fileObject.Some? {
        paths := paths.(byObject := paths.byObject[e.io.fileObject.value := e.io.path.value]);
      }
      if e.io.fileKey.Some? {
        paths := paths.(byKey := paths.byKey[e.io.fileKey.value := e.io.path.value]);
      }
    }

    method RemoveFilePath(e: Event)
      modifies this`paths
      ensures paths == Spec.ForgetPath(old(paths), e)
    {
      if e.io.fileObject.Some? {
        paths := paths.(byObject := paths.byObject - {e.io.fileObject.value});
      }
      if e.io.fileKey.Some? {
        paths := paths.(byKey := paths.byKey - {e.io.fileKey.value});
      }
    }

    /** Completes a decoded record whose path is still the event's own one. */
    method ResolveFilePath(direct: FileRecord) returns (r: FileRecord)
      requires direct == Spec.Decode(NO_PATHS, direct.origin, direct.walks)
      modifies this`paths
      ensures paths == Spec.CountPath(old(paths), direct.origin)
      ensures r == Spec.Decode(old(paths), direct.origin, direct.walks)
    {
      r := direct;
      var io := direct.origin.io;
      if r.path.Some? && r.path.value != "" {
        paths := paths.(resolved := paths.resolved + 1);
        return;
      }
      if io.fileObject.Some? && io.fileObject.value in paths.byObject {
        r := r.(path := Some(paths.byObject[io.fileObject.value]), pathSource := Some(ObjectCache));
        paths := paths.(resolved := paths.resolved + 1);
        return;
      }
      if io.fileKey.Some? && io.fileKey.value in paths.byKey {
        r := r.(path := Some(paths.byKey[io.fileKey.value]), pathSource := Some(KeyCache));
        paths := paths.(resolved := paths.resolved + 1);
        return;
      }
      paths := paths.(unresolved := paths.unresolved + 1);
    }

    /** An OP_END takes no stack walk; any other file event takes the one that waits for it. */
    method DecodedFileEvent(e: Event) returns (r: FileRecord)
      modifies this`cache
      ensures var walks := if e.opcode == FILE_IO_OP_END then []
                           else Spec.Taken(old(cache).stacks, e.time, Owner(e), e.tid);
              && r == Spec.Decode(NO_PATHS, e, walks).(
                        stack := if e.opcode == FILE_IO_OP_END then [] else Spec.AppendWalks(e.addresses, walks))
              && cache == if e.opcode == FILE_IO_OP_END then old(cache)
                          else old(cache).(stacks := Spec.AfterTake(old(cache).stacks, e.time, Owner(e), e.tid))
    {
      var source := if e.io.path.None? then None
                    else if e.opcode == FILE_IO_CREATE then Some(OpenPath) else Some(FileName);
      r := FileRecord(e, Owner(e), e.io.path, source, e.io.extraInfo, e.io.status, [], [], None);
      if e.opcode != FILE_IO_OP_END {
        var walks, stack := TakeStackFor(e);
        r := r.(stack := stack, walks := walks);
      }
    }

    method WriteFileEvent(r: FileRecord)
      modifies this`sink
      ensures sink == Spec.WriteFile(cfg, modules, old(sink), r)
    {
      var isOpen := cfg.opens(sink.attempts);
      sink := sink.(attempts := sink.attempts + 1);
      if !isOpen {
        SkipEvent();
        sink := sink.(log := sink.log + [FileLine(r, None)]);
        return;
      }
      var frames := StackFramesFromAddresses(r.stack, r.pid);
      sink := sink.(log := sink.log + [FileLine(r, Some(frames))], files := sink.files + {File},
                    written := sink.written + 1);
    }

    method CompleteIo(e: Event)
      modifies this`irps, this`sink
      ensures Abstract() == Spec.StepIo(cfg, old(Abstract()), Spec.EndIo(old(irps), e, sequence))
    {
      if e.io.irp.None? {
        irps := irps.(unmatched := irps.unmatched + 1);
        return;
      }
      var irp := e.io.irp.value;
      if irp !in irps.pending {
        if irp in irps.ignored {
          irps := irps.(ignored := irps.ignored - {irp});
        } else {
          irps := irps.(unmatched := irps.unmatched + 1);
        }
        return;
      }
      var merged := irps.pending[irp];
      irps := irps.(pending := irps.pending - {irp});
      if e.io.extraInfo.Some? {
        merged := merged.(extraInfo := e.io.extraInfo);
      }
      if e.io.status.Some? {
        merged := merged.(status := e.io.status);
      }
      merged := merged.(completion := Some(Completion(Owner(e), e.tid, sequence)));
      irps := irps.(matched := irps.matched + 1);
      WriteOne(cfg, modules, sink, merged);
      WriteFileEvent(merged);
    }

    method CloseFile(r: FileRecord)
      modifies this`irps, this`sink, this`paths
      ensures Abstract() == Spec.StepIo(cfg, old(Abstract()), Spec.CloseIo(old(irps), r)).(
                              paths := Spec.ForgetPath(old(paths), r.origin))
    {
      if r.origin.io.irp.Some? {
        var irp := r.origin.io.irp.value;
        if irp in irps.pending {
          irps := irps.(reused := irps.reused + 1);
        }
        irps := irps.(pending := irps.pending - {irp}, ignored := irps.ignored + {irp});
      }
      WriteOne(cfg, modules, sink, r);
      WriteFileEvent(r);
      RemoveFilePath(r.origin);
    }

    method ParkFile(r: FileRecord)
      modifies this`irps, this`sink, this`paths
      ensures Abstract() == Spec.StepIo(cfg, old(Abstract()), Spec.ParkIo(old(irps), r)).(
                              paths := if r.origin.opcode == FILE_IO_CLEANUP
                                       then Spec.ForgetPath(old(paths), r.origin) else old(paths))
    {
      if r.origin.io.irp.Some? {
        var irp := r.origin.io.irp.value;
        if irp in irps.pending {
          irps := irps.(reused := irps.reused + 1);
          WriteOne(cfg, modules, sink, irps.pending[irp]);
          WriteFileEvent(irps.pending[irp]);
          irps := irps.(pending := irps.pending - {irp});
        }
        irps := irps.(pending := irps.pending[irp := r]);
        assert irps.pending == old(irps).pending[irp := r];
      } else {
        WriteOne(cfg, modules, sink, r);
        WriteFileEvent(r);
      }
      if r.origin.opcode == FILE_IO_CLEANUP {
        RemoveFilePath(r.origin);
      }
    }

    /** Path handling, then CLOSE or the parking of an event that waits for its OP_END. */
    method SettleFile(direct: FileRecord)
      requires direct == Spec.Decode(NO_PATHS, direct.origin, direct.walks)
      modifies this`irps, this`sink, this`paths
      ensures var r := Spec.Decode(Spec.CachePath(old(paths), direct.origin), direct.origin, direct.walks);
              Abstract() == Spec.StepIo(cfg, old(Abstract()), Spec.BeginIo(old(irps), r)).(
                              paths := Spec.StepPaths(old(paths), direct.origin))
    {
      CacheFilePath(direct.origin);
      var r := ResolveFilePath(direct);
      if direct.origin.opcode == FILE_IO_CLOSE {
        CloseFile(r);
      } else {
        ParkFile(r);
      }
    }

    method ProcessFileIoEvent(e: Event)
      requires KnownFileIo(e)
      modifies this
      ensures Abstract() == if File in cfg.presets then Spec.StepFile(cfg, old(Abstract()), e)
                            else old(Abstract()).(sink := Spec.Skip(old(sink)))
    {
      if File !in cfg.presets {
        SkipEvent();
        return;
      }
      var direct := DecodedFileEvent(e);
      sequence := sequence + 1;
      if e.opcode == FILE_IO_OP_END {
        CompleteIo(e);
        return;
      }
      if cfg.root.Some? && direct.pid !in tree {
        SkipEvent();
        return;
      }
      SettleFile(direct);
    }

    method ListPending() returns (pending: seq<FileRecord>)
      ensures pending == Spec.Listed(irps.pending, cfg.walkOrder(irps.pending.Keys))
    {
      var keys := cfg.walkOrder(irps.pending.Keys);
      pending := [];
      for i := 0 to |keys|
        invariant pending == Spec.Listed(irps.pending, keys[..i])
      {
        assert Spec.Prefix(keys[..i + 1]) == keys[..i];
        if keys[i] in irps.pending {
          pending := pending + [irps.pending[keys[i]]];
        }
      }
      assert keys[..|keys|] == keys;
    }

    method FlushPendingFileEvents()
      modifies this`irps, this`sink
      ensures Abstract() == Spec.Flush(cfg, old(Abstract()))
    {
      irps := irps.(incomplete := irps.incomplete + |irps.pending|);
      var pending := ListPending();
      irps := irps.(pending := map[]);
      for i := 0 to |pending|
        invariant sink == Spec.WriteAll(cfg, modules, old(sink), pending[..i])
        invariant irps == Spec.FlushIo(cfg, old(irps)).table
      {
        assert Spec.Prefix(pending[..i + 1]) == pending[..i];
        WriteFileEvent(pending[i]);
      }
      assert pending[..|pending|] == pending;
    }

    /** Appends the line of an event whose file is open, with the stack walk that waited for it. */
    method WriteOpenedEvent(c: Category, e: Event)
      requires cfg.opens(sink.attempts)
      modifies this`cache, this`sink
      ensures cache == old(cache).(stacks := Spec.AfterTake(old(cache).stacks, e.time, Owner(e), e.tid))
      ensures var walks := Spec.Taken(old(cache).stacks, e.time, Owner(e), e.tid);
              var stack := Spec.AppendWalks(e.addresses, walks);
              sink == Spec.Write(cfg, old(sink), c, EventLine(e, stack, walks, None),
                                 Spec.Frames(modules, Owner(e), stack))
    {
      var walks, stack := TakeStackFor(e);
      var frames := StackFramesFromAddresses(stack, Owner(e));
      sink := sink.(log := sink.log + [EventLine(e, stack, walks, Some(frames))], attempts := sink.attempts + 1,
                    files := sink.files + {c}, written := sink.written + 1);
    }

    method WriteAllowedEvent(c: Category, e: Event)
      modifies this`modules, this`cache, this`sink
      ensures Abstract() == Spec.WriteOther(cfg, old(Abstract()), c, e)
    {
      if !cfg.opens(sink.attempts) {
        SkipEvent();
        sink := sink.(log := sink.log + [EventLine(e, [], [], None)], attempts := sink.attempts + 1);
        return;
      }
      if c.Image? {
        UpdateModuleMap(e);
      }
      WriteOpenedEvent(c, e);
    }

    method WriteExtractedEvent(c: Category, e: Event)
      modifies this
      ensures Abstract() == Spec.StepOther(cfg, old(Abstract()), c, e)
    {
      var allowed := ProcessTreeAllowsEvent(c, e);
      if !allowed {
        SkipEvent();
        return;
      }
      WriteAllowedEvent(c, e);
    }

    method EventRecordCallback(e: Event)
      modifies this
      ensures Abstract() == Spec.Step(cfg, old(Abstract()), e)
    {
      if e.walk.Some? {
        ProcessStackWalkEvent(e.walk.value);
        return;
      }
      if e.category.None? {
        SkipEvent();
        return;
      }
      var c := e.category.value;
      if c.Image? {
        var allowed := ProcessTreeAllowsEvent(c, e);
        if allowed {
          UpdateModuleMap(e);
        }
      }
      if KnownFileIo(e) {
        ProcessFileIoEvent(e);
        return;
      }
      if c !in cfg.presets {
        SkipEvent();
        return;
      }
      WriteExtractedEvent(c, e);
    }
  }

  /** One extraction: every event of the trace in turn, then the flush. */
  method ExtractFileEvents(cfg: Config, t: seq<Event>) returns (context: ExtractionContext)
    ensures fresh(context) && context.cfg == cfg && context.Abstract() == Spec.Extract(cfg, t)
  {
    context := new ExtractionContext(cfg);
    for i := 0 to |t|
      invariant fresh(context) && context.cfg == cfg
      invariant context.Abstract() == Spec.Run(cfg, t[..i])
    {
      assert Spec.Prefix(t[..i + 1]) == t[..i];
      context.EventRecordCallback(t[i]);
    }
    assert t[..|t|] == t;
    context.FlushPendingFileEvents();
  }
}
