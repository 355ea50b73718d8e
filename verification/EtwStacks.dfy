/**
 * Where stack walks go. Over every run each walk ends in at most one record, a record's stack is its own
 * addresses followed by those of its walks, and a walk only joins a record of its time and process.
 */
module EtwStacks {
  import opened Options
  import opened EtwEvents
  import opened EtwSpec
  import opened EtwInvariants
  import opened EtwIrps
  import opened Totals

  function Walks(t: seq<Event>): seq<StackWalk> {
    if t == [] then [] else Walks(Prefix(t)) + (if Last(t).walk.Some? then [Last(t).walk.value] else [])
  }

  // ---------- weights: how many copies of a walk a thing holds ----------

  function InRecord(w: StackWalk): FileRecord -> nat {
    (r: FileRecord) => multiset(r.walks)[w]
  }

  function InList(w: StackWalk): seq<StackWalk> -> nat {
    (ws: seq<StackWalk>) => multiset(ws)[w]
  }

  function InLine(w: StackWalk): Output -> nat {
    (o: Output) => multiset(if o.FileLine? then o.record.walks else o.walks)[w]
  }

  // ---------- the bounded cache ----------

  function EvictedBy(c: StackCache, w: StackWalk): seq<StackWalk> {
    if w.time !in c.stacks && |c.order| >= MAX_PENDING_STACK_TIMESTAMPS then CachedAt(c.stacks, c.order[0]) else []
  }

  /** The walks that caching one more drops: a refused one, evicted ones, one whose timestamp is full. */
  function DroppedOf(cfg: Config, s: State, w: StackWalk): seq<StackWalk> {
    if !OwnerAllowed(cfg, s.tree, w.pid) then [w]
    else EvictedBy(s.cache, w) +
         (if |CachedAt(s.cache.stacks, w.time)| >= MAX_PENDING_STACKS_PER_TIMESTAMP then [w] else [])
  }

  function DroppedBy(cfg: Config, s: State, e: Event): seq<StackWalk> {
    if e.walk.None? || Attaches(cfg, s, e) then [] else DroppedOf(cfg, s, e.walk.value)
  }

  function Dropped(cfg: Config, t: seq<Event>): seq<StackWalk>
    decreases |t|
  {
    if t == [] then [] else Dropped(cfg, Prefix(t)) + DroppedBy(cfg, Run(cfg, Prefix(t)), Last(t))
  }

  lemma TakeLaw(stacks: Stacks, time: int, pid: Pid, tid: nat, x: StackWalk)
    ensures Total(stacks, InList(x)) ==
            Total(AfterTake(stacks, time, pid, tid), InList(x)) + multiset(Taken(stacks, time, pid, tid))[x]
  {
    var ws := CachedAt(stacks, time);
    var k := SelectWalk(ws, pid, tid);
    if k < |ws| {
      assert ws == ws[..k] + [ws[k]] + ws[k + 1..];
      TotalRemove(stacks, InList(x), time);
      TotalUpdate(stacks, InList(x), time, ws[..k] + ws[k + 1..]);
      if |ws| == 1 {
        assert ws == [ws[k]];
      }
    }
  }

  lemma CacheLaw(c: StackCache, w: StackWalk, x: StackWalk)
    ensures var full := |CachedAt(c.stacks, w.time)| >= MAX_PENDING_STACKS_PER_TIMESTAMP;
            var lost := EvictedBy(c, w) + (if full then [w] else []);
            && Total(CacheWalk(c, w).stacks, InList(x)) + multiset(lost)[x] ==
               Total(c.stacks, InList(x)) + (if x == w then 1 else 0)
            && CacheWalk(c, w).dropped == c.dropped + |lost|
  {
    var c1 := if w.time in c.stacks then c else MakeRoom(c).(order := MakeRoom(c).order + [w.time]);
    if w.time !in c.stacks && |c.order| >= MAX_PENDING_STACK_TIMESTAMPS {
      TotalRemove(c.stacks, InList(x), c.order[0]);
    }
    var ws := CachedAt(c1.stacks, w.time);
    assert ws == CachedAt(c.stacks, w.time);
    TotalUpdate(c1.stacks, InList(x), w.time, ws + [w]);
  }

  // ---------- what a step moves ----------

  lemma WriteSum(cfg: Config, k: Sink, c: Category, line: Output, fs: seq<Frame>, x: StackWalk)
    ensures Sum(Write(cfg, k, c, line, fs).log, InLine(x)) == Sum(k.log, InLine(x)) + InLine(x)(line)
  {
    SumAppend(k.log, [line.(frames := Some(fs))], InLine(x));
    SumAppend(k.log, [line.(frames := None)], InLine(x));
    SumOne(line.(frames := Some(fs)), InLine(x));
    SumOne(line.(frames := None), InLine(x));
  }

  lemma {:induction false} WriteAllSum(cfg: Config, modules: Modules, k: Sink, rs: seq<FileRecord>, x: StackWalk)
    ensures Sum(WriteAll(cfg, modules, k, rs).log, InLine(x)) == Sum(k.log, InLine(x)) + Sum(rs, InRecord(x))
    decreases |rs|
  {
    if rs != [] {
      var r := Last(rs);
      WriteAllSum(cfg, modules, k, Prefix(rs), x);
      WriteSum(cfg, WriteAll(cfg, modules, k, Prefix(rs)), File, FileLine(r, None), Frames(modules, r.pid, r.stack), x);
    }
  }

  /** Walks in the written lines and in the cache, which is all that an event outside the IRP route touches. */
  ghost function Held(s: State, x: StackWalk): nat {
    Sum(s.sink.log, InLine(x)) + Total(s.cache.stacks, InList(x))
  }

  lemma WalkConserves(cfg: Config, s: State, w: StackWalk, x: StackWalk)
    requires Target(cfg, s.irps.pending, w).None?
    ensures var s', e := StepWalk(cfg, s, w), DroppedOf(cfg, s, w);
            && Held(s', x) + multiset(e)[x] == Held(s, x) + (if x == w then 1 else 0)
            && s'.cache.dropped == s.cache.dropped + |e|
  {
    if OwnerAllowed(cfg, s.tree, w.pid) {
      CacheLaw(s.cache, w, x);
    } else {
      assert multiset([w])[x] == if x == w then 1 else 0;
    }
  }

  lemma StepConserves(cfg: Config, s: State, e: Event, x: StackWalk)
    requires Invariant(cfg, s)
    ensures var s', io := Step(cfg, s, e), IrpStepOf(cfg, s, e);
            && Held(s', x) + Total(io.table.pending, InRecord(x)) + Sum(LostBy(cfg, s, e), InRecord(x))
               + multiset(DroppedBy(cfg, s, e))[x]
               == Held(s, x) + Total(s.irps.pending, InRecord(x)) + (if e.walk == Some(x) then 1 else 0)
            && s'.cache.dropped == s.cache.dropped + |DroppedBy(cfg, s, e)|
  {
    StepOrigins(cfg, s, e, InRecord(x));
    StepHolds(cfg, s, e, x);
  }

  /** What a step does to the lines and the cache: records come from the IRP table, walks arrive or are dropped. */
  lemma StepHolds(cfg: Config, s: State, e: Event, x: StackWalk)
    requires Invariant(cfg, s)
    ensures var s' := Step(cfg, s, e);
            && Held(s', x) + (if AcceptedBy(cfg, s.tree, e) then InRecord(x)(RecordFor(s, e)) else 0)
               + multiset(DroppedBy(cfg, s, e))[x]
               == Held(s, x) + Sum(IrpStepOf(cfg, s, e).writes, InRecord(x))
                  + (if e.walk == Some(x) && !Attaches(cfg, s, e) then 1 else 0)
            && s'.cache.dropped == s.cache.dropped + |DroppedBy(cfg, s, e)|
  {
    if e.walk.Some? {
      if !Attaches(cfg, s, e) {
        WalkConserves(cfg, s, e.walk.value, x);
      }
    } else if e.category.Some? && e.category.value in cfg.presets {
      if KnownFileIo(e) {
        FileConserves(cfg, s, e, x);
      } else {
        OtherConserves(cfg, StepImage(cfg, s, e.category.value, e), e.category.value, e, x);
      }
    }
  }

  lemma AcceptedConserves(cfg: Config, s: State, e: Event, x: StackWalk)
    requires AcceptedBy(cfg, s.tree, e)
    ensures var s' := StepFile(cfg, s, e);
            && Held(s', x) + InRecord(x)(RecordFor(s, e)) ==
               Held(s, x) + Sum(BeginIo(s.irps, RecordFor(s, e)).writes, InRecord(x))
            && s'.cache.dropped == s.cache.dropped
  {
    TakeLaw(s.cache.stacks, e.time, Owner(e), e.tid, x);
    WriteAllSum(cfg, s.modules, s.sink, BeginIo(s.irps, RecordFor(s, e)).writes, x);
  }

  lemma IoHolds(cfg: Config, s: State, sequence: nat, io: IrpStep, x: StackWalk)
    ensures Held(StepIo(cfg, s.(sequence := sequence), io), x) == Held(s, x) + Sum(io.writes, InRecord(x))
  {
    WriteAllSum(cfg, s.modules, s.sink, io.writes, x);
  }

  lemma EndsIo(cfg: Config, s: State, e: Event)
    requires IsOpEnd(cfg, e)
    ensures StepFile(cfg, s, e) ==
            StepIo(cfg, s.(sequence := s.sequence + 1), EndIo(s.irps, e, s.sequence + 1))
  {
  }

  lemma EndConserves(cfg: Config, s: State, e: Event, x: StackWalk)
    requires IsOpEnd(cfg, e)
    ensures var s' := StepFile(cfg, s, e);
            && Held(s', x) == Held(s, x) + Sum(EndIo(s.irps, e, s.sequence + 1).writes, InRecord(x))
            && s'.cache.dropped == s.cache.dropped
  {
    IoHolds(cfg, s, s.sequence + 1, EndIo(s.irps, e, s.sequence + 1), x);
    EndsIo(cfg, s, e);
  }

  lemma FileConserves(cfg: Config, s: State, e: Event, x: StackWalk)
    requires Invariant(cfg, s) && IsFileIo(cfg, e)
    ensures var s' := StepFile(cfg, s, e);
            && Held(s', x) + (if AcceptedBy(cfg, s.tree, e) then InRecord(x)(RecordFor(s, e)) else 0)
               == Held(s, x) + Sum(IrpStepOf(cfg, s, e).writes, InRecord(x))
            && s'.cache.dropped == s.cache.dropped
  {
    if IsOpEnd(cfg, e) {
      EndConserves(cfg, s, e, x);
    } else if AcceptedBy(cfg, s.tree, e) {
      AcceptedConserves(cfg, s, e, x);
    } else {
      RejectedTakesNothing(cfg, s, e);
    }
  }

  lemma OpenedConserves(cfg: Config, s: State, c: Category, e: Event, x: StackWalk)
    requires cfg.opens(s.sink.attempts)
    ensures Held(WriteOther(cfg, s, c, e), x) == Held(s, x)
  {
    var walks := Taken(s.cache.stacks, e.time, Owner(e), e.tid);
    var stack := AppendWalks(e.addresses, walks);
    var modules := if c.Image? then UpdateModules(s.modules, e) else s.modules;
    TakeLaw(s.cache.stacks, e.time, Owner(e), e.tid, x);
    WriteSum(cfg, s.sink, c, EventLine(e, stack, walks, None), Frames(modules, Owner(e), stack), x);
  }

  lemma OtherConserves(cfg: Config, s: State, c: Category, e: Event, x: StackWalk)
    ensures var s' := StepOther(cfg, s, c, e); Held(s', x) == Held(s, x) && s'.cache.dropped == s.cache.dropped
  {
    if cfg.opens(s.sink.attempts) {
      OpenedConserves(cfg, s.(tree := Grow(cfg, s.tree, c, e)), c, e, x);
    } else {
      WriteSum(cfg, s.sink, c, EventLine(e, [], [], None), [], x);
    }
  }

  /**
   * In every reachable state each stack walk that arrived is in one record (written, parked or superseded),
   * in the cache, or dropped, as often as it arrived; and the drop counter counts the drops.
   */
  lemma {:induction false} WalkConservation(cfg: Config, t: seq<Event>, x: StackWalk)
    ensures var s := Run(cfg, t);
            && multiset(Walks(t))[x] ==
               Sum(s.sink.log, InLine(x)) + Total(s.irps.pending, InRecord(x)) + Sum(Superseded(cfg, t), InRecord(x))
               + Total(s.cache.stacks, InList(x)) + multiset(Dropped(cfg, t))[x]
            && s.cache.dropped == |Dropped(cfg, t)|
    decreases |t|
  {
    if t != [] {
      var u, e := Prefix(t), Last(t);
      var s := Run(cfg, u);
      WalkConservation(cfg, u, x);
      Reachable(cfg, u);
      StepIrps(cfg, s, e);
      StepConserves(cfg, s, e, x);
      SumAppend(Superseded(cfg, u), LostBy(cfg, s, e), InRecord(x));
    }
  }

  /** The same balance for a finished extraction, where no record is parked any more. */
  lemma WalkConservationAtEnd(cfg: Config, t: seq<Event>, x: StackWalk)
    requires cfg.Valid()
    ensures var s := Extract(cfg, t);
            && multiset(Walks(t))[x] ==
               Sum(s.sink.log, InLine(x)) + Sum(Superseded(cfg, t), InRecord(x))
               + Total(s.cache.stacks, InList(x)) + multiset(Dropped(cfg, t))[x]
            && s.cache.dropped == |Dropped(cfg, t)|
  {
    var s := Run(cfg, t);
    var keys := cfg.walkOrder(s.irps.pending.Keys);
    WalkConservation(cfg, t, x);
    WriteAllSum(cfg, s.modules, s.sink, Listed(s.irps.pending, keys), x);
    assert Enumerates(keys, s.irps.pending.Keys);
    ListedTotal(s.irps.pending, keys, InRecord(x));
  }

  // ---------- provenance ----------

  /** The stack is the own addresses, then those of walks seen for the same time and process. */
  ghost predicate Fed(
    seen: seq<StackWalk>, time: int, pid: Pid, own: seq<Address>, stack: seq<Address>, walks: seq<StackWalk>)
  {
    && stack == AppendWalks(own, walks)
    && forall w :: w in walks ==> w in seen && w.time == time && w.pid == pid
  }

  ghost predicate FedRecord(seen: seq<StackWalk>, r: FileRecord) {
    Fed(seen, r.origin.time, r.pid, r.origin.addresses, r.stack, r.walks)
  }

  ghost predicate FedLine(seen: seq<StackWalk>, o: Output) {
    match o
    case FileLine(r, _) => FedRecord(seen, r)
    case EventLine(e, stack, walks, frames) =>
      if frames.Some? then Fed(seen, e.time, Owner(e), e.addresses, stack, walks) else stack == []
  }

  ghost predicate Provenance(seen: seq<StackWalk>, s: State) {
    && (forall o :: o in s.sink.log ==> FedLine(seen, o))
    && (forall irp :: irp in s.irps.pending ==> FedRecord(seen, s.irps.pending[irp]))
    && (forall time, w :: time in s.cache.stacks && w in s.cache.stacks[time] ==> w in seen)
  }

  lemma ProvenanceGrows(seen: seq<StackWalk>, more: seq<StackWalk>, s: State)
    requires Provenance(seen, s)
    ensures Provenance(seen + more, s)
  {
    forall r | FedRecord(seen, r)
      ensures FedRecord(seen + more, r)
    {
    }
    forall o | FedLine(seen, o)
      ensures FedLine(seen + more, o)
    {
    }
  }

  lemma AttachedStaysFed(seen: seq<StackWalk>, r: FileRecord, w: StackWalk)
    requires FedRecord(seen, r) && SameTarget(r, w) && w in seen
    ensures FedRecord(seen, Attached(r, w))
  {
    assert Prefix(r.walks + [w]) == r.walks;
  }

  lemma TakenIsFed(seen: seq<StackWalk>, s: State, e: Event)
    requires Provenance(seen, s) && CacheBounded(s.cache)
    ensures var walks := Taken(s.cache.stacks, e.time, Owner(e), e.tid);
            Fed(seen, e.time, Owner(e), e.addresses, AppendWalks(e.addresses, walks), walks)
    ensures forall time, w ::
              var stacks := AfterTake(s.cache.stacks, e.time, Owner(e), e.tid);
              time in stacks && w in stacks[time] ==> w in seen
  {
    var ws := CachedAt(s.cache.stacks, e.time);
    var k := SelectWalk(ws, Owner(e), e.tid);
    if k < |ws| {
      assert ws[k] in ws && ws[k].pid == Owner(e);
      assert forall w :: w in ws[..k] + ws[k + 1..] ==> w in ws;
    }
  }

  lemma {:induction false} WriteAllFed(
    seen: seq<StackWalk>, cfg: Config, modules: Modules, k: Sink, rs: seq<FileRecord>)
    requires forall o :: o in k.log ==> FedLine(seen, o)
    requires forall r :: r in rs ==> FedRecord(seen, r)
    ensures forall o :: o in WriteAll(cfg, modules, k, rs).log ==> FedLine(seen, o)
    decreases |rs|
  {
    if rs != [] {
      assert Last(rs) in rs;
      WriteAllFed(seen, cfg, modules, k, Prefix(rs));
    }
  }

  lemma WalkProvenance(seen: seq<StackWalk>, cfg: Config, s: State, w: StackWalk)
    requires Provenance(seen, s) && w in seen
    ensures Provenance(seen, StepWalk(cfg, s, w))
  {
    var target := Target(cfg, s.irps.pending, w);
    if target.Some? {
      AttachedStaysFed(seen, s.irps.pending[target.value], w);
    }
  }

  lemma FileProvenance(seen: seq<StackWalk>, cfg: Config, s: State, e: Event)
    requires Provenance(seen, s) && CacheBounded(s.cache) && IsFileIo(cfg, e)
    ensures Provenance(seen, StepFile(cfg, s, e))
  {
    TakenIsFed(seen, s, e);
    if IsOpEnd(cfg, e) {
      IoProvenance(seen, cfg, s, EndIo(s.irps, e, s.sequence + 1));
    } else if AcceptedBy(cfg, s.tree, e) {
      assert FedRecord(seen, RecordFor(s, e));
      IoProvenance(seen, cfg, s, BeginIo(s.irps, RecordFor(s, e)));
    }
  }

  lemma IoProvenance(seen: seq<StackWalk>, cfg: Config, s: State, io: IrpStep)
    requires Provenance(seen, s)
    requires forall r :: r in io.writes ==> FedRecord(seen, r)
    requires forall irp :: irp in io.table.pending ==> FedRecord(seen, io.table.pending[irp])
    ensures Provenance(seen, StepIo(cfg, s, io))
  {
    WriteAllFed(seen, cfg, s.modules, s.sink, io.writes);
  }

  lemma OtherProvenance(seen: seq<StackWalk>, cfg: Config, s: State, c: Category, e: Event)
    requires Provenance(seen, s) && CacheBounded(s.cache)
    ensures Provenance(seen, StepOther(cfg, s, c, e))
  {
    TakenIsFed(seen, s, e);
  }

  lemma StepProvenance(seen: seq<StackWalk>, cfg: Config, s: State, e: Event)
    requires Provenance(seen, s) && CacheBounded(s.cache) && (e.walk.Some? ==> e.walk.value in seen)
    ensures Provenance(seen, Step(cfg, s, e))
  {
    if e.walk.Some? {
      WalkProvenance(seen, cfg, s, e.walk.value);
    } else if e.category.Some? && e.category.value in cfg.presets {
      var s1 := StepImage(cfg, s, e.category.value, e);
      assert Provenance(seen, s1);
      if KnownFileIo(e) {
        FileProvenance(seen, cfg, s1, e);
      } else {
        OtherProvenance(seen, cfg, s1, e.category.value, e);
      }
    }
  }

  lemma {:induction false} RunProvenance(cfg: Config, t: seq<Event>)
    ensures Provenance(Walks(t), Run(cfg, t))
    decreases |t|
  {
    if t != [] {
      var u, e := Prefix(t), Last(t);
      RunProvenance(cfg, u);
      Reachable(cfg, u);
      ProvenanceGrows(Walks(u), Walks(t)[|Walks(u)|..], Run(cfg, u));
      assert Walks(t) == Walks(u) + Walks(t)[|Walks(u)|..];
      StepProvenance(Walks(t), cfg, Run(cfg, u), e);
    }
  }

  /** Appending keeps the target in front and adds each new nonzero address once. */
  lemma {:induction false} AppendStackIsExact(target: seq<Address>, source: seq<Address>)
    ensures var r := AppendStack(target, source);
            && target <= r
            && (forall a :: a in r <==> a in target || (a in source && a != 0))
            && (forall i, j :: 0 <= i < j < |r| && |target| <= j ==> r[i] != r[j])
    decreases |source|
  {
    if source != [] {
      var next := if source[0] != 0 && source[0] !in target then target + [source[0]] else target;
      AppendStackIsExact(next, source[1..]);
      assert source == [source[0]] + source[1..];
    }
  }

  lemma {:induction false} AppendWalksFrom(own: seq<Address>, walks: seq<StackWalk>, a: Address)
    requires a in AppendWalks(own, walks)
    ensures a in own || exists w :: w in walks && a in w.addresses
    decreases |walks|
  {
    if walks != [] {
      AppendStackIsExact(AppendWalks(own, Prefix(walks)), Last(walks).addresses);
      if a in AppendWalks(own, Prefix(walks)) {
        AppendWalksFrom(own, Prefix(walks), a);
      } else {
        assert Last(walks) in walks;
      }
    }
  }

  function LineEvent(o: Output): Event {
    if o.FileLine? then o.record.origin else o.event
  }

  lemma {:induction false} WrittenOwners(cfg: Config, t: seq<Event>)
    ensures forall o :: o in Run(cfg, t).sink.log && o.FileLine? ==> o.record.pid == Owner(o.record.origin)
    decreases |t|
  {
    if t != [] {
      WrittenOwners(cfg, Prefix(t));
      Reachable(cfg, Prefix(t));
      StepOwners(cfg, Run(cfg, Prefix(t)), Last(t));
    }
  }

  lemma {:induction false} WriteAllOwners(cfg: Config, modules: Modules, k: Sink, rs: seq<FileRecord>)
    requires forall o :: o in k.log && o.FileLine? ==> o.record.pid == Owner(o.record.origin)
    requires forall r :: r in rs ==> r.pid == Owner(r.origin)
    ensures forall o :: o in WriteAll(cfg, modules, k, rs).log && o.FileLine? ==> o.record.pid == Owner(o.record.origin)
    decreases |rs|
  {
    if rs != [] {
      assert Last(rs) in rs;
      WriteAllOwners(cfg, modules, k, Prefix(rs));
    }
  }

  lemma FileOwners(cfg: Config, s: State, e: Event)
    requires Invariant(cfg, s) && IsFileIo(cfg, e)
    requires forall o :: o in s.sink.log && o.FileLine? ==> o.record.pid == Owner(o.record.origin)
    ensures forall o :: o in StepFile(cfg, s, e).sink.log && o.FileLine? ==> o.record.pid == Owner(o.record.origin)
  {
    var io := IrpStepOf(cfg, s, e);
    assert forall r :: r in io.writes ==> r.pid == Owner(r.origin);
    WriteAllOwners(cfg, s.modules, s.sink, io.writes);
  }

  lemma StepOwners(cfg: Config, s: State, e: Event)
    requires Invariant(cfg, s)
    requires forall o :: o in s.sink.log && o.FileLine? ==> o.record.pid == Owner(o.record.origin)
    ensures forall o :: o in Step(cfg, s, e).sink.log && o.FileLine? ==> o.record.pid == Owner(o.record.origin)
  {
    if IsFileIo(cfg, e) {
      FileOwners(cfg, s, e);
    }
  }

  /**
   * Every stack address of a line is one of its own event's addresses or comes from a stack walk of the
   * trace with the timestamp and the process of that event.
   */
  lemma StackProvenance(cfg: Config, t: seq<Event>, o: Output, a: Address)
    requires o in Extract(cfg, t).sink.log && a in LineStack(o)
    ensures var e := LineEvent(o);
            a in e.addresses || exists w :: w in Walks(t) && w.time == e.time && w.pid == Owner(e) && a in w.addresses
  {
    var s := Run(cfg, t);
    var keys := cfg.walkOrder(s.irps.pending.Keys);
    var rs := Listed(s.irps.pending, keys);
    RunProvenance(cfg, t);
    WrittenOwners(cfg, t);
    Reachable(cfg, t);
    ListedIn(s.irps.pending, keys);
    WriteAllFed(Walks(t), cfg, s.modules, s.sink, rs);
    WriteAllOwners(cfg, s.modules, s.sink, rs);
    assert FedLine(Walks(t), o);
    AppendWalksFrom(LineEvent(o).addresses, if o.FileLine? then o.record.walks else o.walks, a);
  }

  lemma {:induction false} ListedIn(p: map<Irp, FileRecord>, keys: seq<Irp>)
    ensures forall r :: r in Listed(p, keys) ==> exists irp :: irp in p && p[irp] == r
    decreases |keys|
  {
    if keys != [] {
      ListedIn(p, Prefix(keys));
    }
  }

  // ---------- preference for the exact thread ----------

  /** An event takes a walk of its own thread if one is cached, else one of its process, else none. */
  lemma TakePrefersThread(stacks: Stacks, time: int, pid: Pid, tid: nat)
    ensures var ws, taken := CachedAt(stacks, time), Taken(stacks, time, pid, tid);
            && |taken| <= 1
            && (forall w :: w in taken ==> w in ws && w.pid == pid)
            && (taken == [] <==> forall w :: w in ws ==> w.pid != pid)
            && ((exists w :: w in ws && w.pid == pid && w.tid == tid) ==> taken != [] && taken[0].tid == tid)
  {
    var ws := CachedAt(stacks, time);
    forall w | w in ws
      ensures exists i :: 0 <= i < |ws| && ws[i] == w
    {
    }
  }

  lemma {:induction false} AttachSearch(p: map<Irp, FileRecord>, keys: seq<Irp>, fallback: Option<Irp>, w: StackWalk)
    requires fallback.Some? ==> fallback.value in p
    requires forall k :: k in keys ==> k in p
    ensures var target := AttachTarget(p, keys, fallback, w);
            && (target.None? <==> fallback.None? && forall k :: k in keys ==> !SameTarget(p[k], w))
            && ((exists k :: k in keys && SameTarget(p[k], w) && p[k].origin.tid == w.tid) ==>
                  target.Some? && target.value in p && p[target.value].origin.tid == w.tid)
    decreases |keys|
  {
    if keys != [] {
      var next := if !SameTarget(p[keys[0]], w) then fallback else Some(keys[0]);
      AttachSearch(p, keys[1..], next, w);
      assert keys == [keys[0]] + keys[1..];
    }
  }

  /** A walk joins a parked record whenever one of its time and process waits, one of its thread by preference. */
  lemma AttachPrefersThread(cfg: Config, p: map<Irp, FileRecord>, w: StackWalk)
    requires cfg.Valid()
    ensures var target := Target(cfg, p, w);
            && (target.None? <==> forall irp :: irp in p ==> !SameTarget(p[irp], w))
            && ((exists irp :: irp in p && SameTarget(p[irp], w) && p[irp].origin.tid == w.tid) ==>
                  target.Some? && p[target.value].origin.tid == w.tid)
  {
    assert Enumerates(cfg.walkOrder(p.Keys), p.Keys);
    AttachSearch(p, cfg.walkOrder(p.Keys), None, w);
  }
}
