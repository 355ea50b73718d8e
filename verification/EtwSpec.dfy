/**
 * What each operation of the extraction does to the abstract state. The class in EtwContext
 * implements these functions; the theorems about whole runs are stated over them.
 */
module EtwSpec {
  import opened Options
  import opened EtwEvents

  // ---------- process tree ----------

  predicate InTree(tree: set<Pid>, pid: Option<Pid>) {
    pid.Some? && pid.value in tree
  }

  predicate Allows(cfg: Config, tree: set<Pid>, c: Category, e: Event) {
    cfg.root.None? ||
    (if c.Process? then Owner(e) in tree || InTree(tree, e.parentPid) else e.headerPid in tree)
  }

  function Grow(cfg: Config, tree: set<Pid>, c: Category, e: Event): set<Pid> {
    if cfg.root.Some? && c.Process? && Allows(cfg, tree, c, e) then tree + {Owner(e)} else tree
  }

  predicate OwnerAllowed(cfg: Config, tree: set<Pid>, pid: Pid) {
    cfg.root.None? || pid in tree
  }

  // ---------- module map and frames ----------

  function ModulesOf(modules: Modules, pid: Pid): seq<Module> {
    if pid in modules then modules[pid] else []
  }

  function Without(ms: seq<Module>, base: Address): seq<Module> {
    if ms == [] then []
    else if ms[|ms| - 1].base == base then Without(ms[..|ms| - 1], base)
    else Without(ms[..|ms| - 1], base) + [ms[|ms| - 1]]
  }

  function ImageModule(e: Event): Module
    requires e.image.base.Some?
  {
    Module(e.image.base.value, e.image.size, e.image.name)
  }

  function UpdateModules(modules: Modules, e: Event): Modules {
    if e.image.base.None? then modules else
    var kept := Without(ModulesOf(modules, Owner(e)), e.image.base.value);
    modules[Owner(e) := if e.image.unload then kept else kept + [ImageModule(e)]]
  }

  /** The position of the first module that contains the address, or the length if there is none. */
  function FirstContaining(ms: seq<Module>, a: Address): (k: nat)
    ensures k <= |ms|
    ensures forall j :: 0 <= j < k ==> !ms[j].Contains(a)
    ensures k < |ms| ==> ms[k].Contains(a)
  {
    if ms == [] || ms[0].Contains(a) then 0 else FirstContaining(ms[1..], a) + 1
  }

  function FindIn(ms: seq<Module>, a: Address): Option<Module> {
    var k := FirstContaining(ms, a);
    if k < |ms| then Some(ms[k]) else None
  }

  function FindModule(modules: Modules, pid: Pid, a: Address): Option<Module> {
    var own := FindIn(ModulesOf(modules, pid), a);
    if own.Some? then own else FindIn(ModulesOf(modules, 0), a)
  }

  function FrameOf(modules: Modules, pid: Pid, a: Address): Frame {
    var m := FindModule(modules, pid, a);
    if m.Some? && m.value.base <= a then Resolved(m.value.name, a - m.value.base) else Raw(a)
  }

  /** The frame of the last address comes first: frames are listed outermost first. */
  function Frames(modules: Modules, pid: Pid, addresses: seq<Address>): seq<Frame>
    decreases |addresses|
  {
    if addresses == [] then []
    else [FrameOf(modules, pid, Last(addresses))] + Frames(modules, pid, Prefix(addresses))
  }

  function ResolvedCount(fs: seq<Frame>): (n: nat)
    ensures n <= |fs|
  {
    if fs == [] then 0 else (if fs[0].Resolved? then 1 else 0) + ResolvedCount(fs[1..])
  }

  function CountFrames(n: FrameCounts, fs: seq<Frame>): FrameCounts {
    FrameCounts(n.total + |fs|, n.resolved + ResolvedCount(fs), n.unresolved + (|fs| - ResolvedCount(fs)))
  }

  // ---------- stack walks ----------

  /** Appends the nonzero source addresses that are not in the target yet. */
  function AppendStack(target: seq<Address>, source: seq<Address>): seq<Address>
    decreases |source|
  {
    if source == [] then target
    else AppendStack(
           if source[0] != 0 && source[0] !in target then target + [source[0]] else target, source[1..])
  }

  function AppendWalks(target: seq<Address>, walks: seq<StackWalk>): seq<Address> {
    if walks == [] then target
    else AppendStack(AppendWalks(target, walks[..|walks| - 1]), walks[|walks| - 1].addresses)
  }

  /** The first walk of the process (and, when asked, of the thread), or the length if there is none. */
  function FirstWalk(ws: seq<StackWalk>, pid: Pid, tid: Option<nat>): (k: nat)
    ensures k <= |ws|
    ensures forall j :: 0 <= j < k ==> !WalkFits(ws[j], pid, tid)
    ensures k < |ws| ==> WalkFits(ws[k], pid, tid)
  {
    if ws == [] || WalkFits(ws[0], pid, tid) then 0 else FirstWalk(ws[1..], pid, tid) + 1
  }

  predicate WalkFits(w: StackWalk, pid: Pid, tid: Option<nat>) {
    w.pid == pid && (tid.Some? ==> w.tid == tid.value)
  }

  function SelectWalk(ws: seq<StackWalk>, pid: Pid, tid: nat): nat {
    var exact := FirstWalk(ws, pid, Some(tid));
    if exact < |ws| then exact else FirstWalk(ws, pid, None)
  }

  function CachedAt(stacks: Stacks, time: int): seq<StackWalk> {
    if time in stacks then stacks[time] else []
  }

  /** The cached walk that an event at this time, of this process and thread, is given: zero or one. */
  function Taken(stacks: Stacks, time: int, pid: Pid, tid: nat): seq<StackWalk> {
    var ws := CachedAt(stacks, time);
    var k := SelectWalk(ws, pid, tid);
    if k < |ws| then [ws[k]] else []
  }

  function AfterTake(stacks: Stacks, time: int, pid: Pid, tid: nat): Stacks {
    var ws := CachedAt(stacks, time);
    var k := SelectWalk(ws, pid, tid);
    if k >= |ws| then stacks
    else if |ws| == 1 then stacks - {time}
    else stacks[time := ws[..k] + ws[k + 1..]]
  }

  /** Frees the oldest slot of a full timestamp queue, with the walks still cached under it. */
  function MakeRoom(c: StackCache): StackCache {
    if |c.order| < MAX_PENDING_STACK_TIMESTAMPS then c
    else StackCache(c.stacks - {c.order[0]}, c.order[1..], c.dropped + |CachedAt(c.stacks, c.order[0])|)
  }

  function CacheWalk(c: StackCache, w: StackWalk): StackCache {
    var c1 := if w.time in c.stacks then c else MakeRoom(c).(order := MakeRoom(c).order + [w.time]);
    var ws := CachedAt(c1.stacks, w.time);
    if |ws| >= MAX_PENDING_STACKS_PER_TIMESTAMP then c1.(dropped := c1.dropped + 1)
    else c1.(stacks := c1.stacks[w.time := ws + [w]])
  }

  function CacheOrDrop(cfg: Config, tree: set<Pid>, c: StackCache, w: StackWalk): StackCache {
    if OwnerAllowed(cfg, tree, w.pid) then CacheWalk(c, w) else c.(dropped := c.dropped + 1)
  }

  predicate SameTarget(r: FileRecord, w: StackWalk) {
    r.origin.time == w.time && r.pid == w.pid
  }

  /** The first parked record of the walk's thread in iteration order, else the last one of its process. */
  function AttachTarget(pending: map<Irp, FileRecord>, keys: seq<Irp>, fallback: Option<Irp>, w: StackWalk)
    : Option<Irp>
    decreases |keys|
  {
    if keys == [] then fallback
    else if keys[0] !in pending || !SameTarget(pending[keys[0]], w) then
      AttachTarget(pending, keys[1..], fallback, w)
    else if pending[keys[0]].origin.tid == w.tid then Some(keys[0])
    else AttachTarget(pending, keys[1..], Some(keys[0]), w)
  }

  function Target(cfg: Config, pending: map<Irp, FileRecord>, w: StackWalk): (target: Option<Irp>)
    ensures target.Some? ==> target.value in pending && SameTarget(pending[target.value], w)
  {
    AttachTargetFits(pending, cfg.walkOrder(pending.Keys), None, w);
    AttachTarget(pending, cfg.walkOrder(pending.Keys), None, w)
  }

  lemma {:induction false} AttachTargetFits(
    pending: map<Irp, FileRecord>, keys: seq<Irp>, fallback: Option<Irp>, w: StackWalk)
    requires fallback.Some? ==> fallback.value in pending && SameTarget(pending[fallback.value], w)
    ensures var target := AttachTarget(pending, keys, fallback, w);
            target.Some? ==> target.value in pending && SameTarget(pending[target.value], w)
    decreases |keys|
  {
    if keys != [] {
      AttachTargetFits(pending, keys[1..], fallback, w);
      if keys[0] in pending && SameTarget(pending[keys[0]], w) {
        AttachTargetFits(pending, keys[1..], Some(keys[0]), w);
      }
    }
  }

  function Attached(r: FileRecord, w: StackWalk): FileRecord {
    r.(stack := AppendStack(r.stack, w.addresses), walks := r.walks + [w])
  }

  function StepWalk(cfg: Config, s: State, w: StackWalk): State {
    var target := Target(cfg, s.irps.pending, w);
    if target.Some?
    then s.(irps := s.irps.(pending := s.irps.pending[target.value := Attached(s.irps.pending[target.value], w)]))
    else s.(cache := CacheOrDrop(cfg, s.tree, s.cache, w))
  }

  // ---------- writers ----------

  function Skip(k: Sink): Sink {
    k.(skipped := k.skipped + 1)
  }

  /** Logs one writer call; a file that cannot be opened turns it into a skipped event. */
  function Write(cfg: Config, k: Sink, c: Category, line: Output, fs: seq<Frame>): Sink {
    if cfg.opens(k.attempts)
    then Sink(k.log + [line.(frames := Some(fs))], k.attempts + 1, k.written + 1, k.files + {c}, k.skipped,
              CountFrames(k.frames, fs))
    else Skip(k).(log := k.log + [line.(frames := None)], attempts := k.attempts + 1)
  }

  function WriteFile(cfg: Config, modules: Modules, k: Sink, r: FileRecord): Sink {
    Write(cfg, k, File, FileLine(r, None), Frames(modules, r.pid, r.stack))
  }

  function WriteAll(cfg: Config, modules: Modules, k: Sink, rs: seq<FileRecord>): Sink
    decreases |rs|
  {
    if rs == [] then k else WriteFile(cfg, modules, WriteAll(cfg, modules, k, Prefix(rs)), Last(rs))
  }

  /** Events outside the IRP route are written at once, with the stack that waited for them. */
  function WriteOther(cfg: Config, s: State, c: Category, e: Event): State {
    if !cfg.opens(s.sink.attempts) then s.(sink := Write(cfg, s.sink, c, EventLine(e, [], [], None), []))
    else
      var modules := if c.Image? then UpdateModules(s.modules, e) else s.modules;
      var walks := Taken(s.cache.stacks, e.time, Owner(e), e.tid);
      var stack := AppendWalks(e.addresses, walks);
      s.(modules := modules,
         cache := s.cache.(stacks := AfterTake(s.cache.stacks, e.time, Owner(e), e.tid)),
         sink := Write(cfg, s.sink, c, EventLine(e, stack, walks, None), Frames(modules, Owner(e), stack)))
  }

  function StepOther(cfg: Config, s: State, c: Category, e: Event): State {
    if Allows(cfg, s.tree, c, e) then WriteOther(cfg, s.(tree := Grow(cfg, s.tree, c, e)), c, e)
    else s.(sink := Skip(s.sink))
  }

  // ---------- file paths ----------

  function CachePath(p: PathTable, e: Event): PathTable {
    if !HasPath(e) then p
    else
      p.(byObject :=
           if e.io.fileObject.Some? then p.byObject[e.io.fileObject.value := e.io.path.value] else p.byObject,
         byKey := if e.io.fileKey.Some? then p.byKey[e.io.fileKey.value := e.io.path.value] else p.byKey)
  }

  function ForgetPath(p: PathTable, e: Event): PathTable {
    p.(byObject := if e.io.fileObject.Some? then p.byObject - {e.io.fileObject.value} else p.byObject,
       byKey := if e.io.fileKey.Some? then p.byKey - {e.io.fileKey.value} else p.byKey)
  }

  function Lookup(paths: map<nat, string>, id: Option<nat>): Option<string> {
    if id.Some? && id.value in paths then Some(paths[id.value]) else None
  }

  predicate Resolves(p: PathTable, e: Event) {
    HasPath(e) || Lookup(p.byObject, e.io.fileObject).Some? || Lookup(p.byKey, e.io.fileKey).Some?
  }

  function CountPath(p: PathTable, e: Event): PathTable {
    if Resolves(p, e) then p.(resolved := p.resolved + 1) else p.(unresolved := p.unresolved + 1)
  }

  /** What an accepted event does to the path caches. */
  function StepPaths(p: PathTable, e: Event): PathTable {
    var p1 := CountPath(CachePath(p, e), e);
    if Invalidates(e) then ForgetPath(p1, e) else p1
  }

  /** An event's own path wins over its object's cached path, which wins over its key's. */
  function ResolvePath(own: Option<string>, byObject: Option<string>, byKey: Option<string>): Option<string> {
    if own.Some? && own.value != "" then own
    else if byObject.Some? then byObject
    else if byKey.Some? then byKey
    else own
  }

  function DirectSource(e: Event): Option<PathSource> {
    if e.io.path.None? then None else if e.opcode == FILE_IO_CREATE then Some(OpenPath) else Some(FileName)
  }

  function SourceOf(p: PathTable, e: Event): Option<PathSource> {
    if HasPath(e) then DirectSource(e)
    else if Lookup(p.byObject, e.io.fileObject).Some? then Some(ObjectCache)
    else if Lookup(p.byKey, e.io.fileKey).Some? then Some(KeyCache)
    else DirectSource(e)
  }

  /** The record of an accepted event, with its path resolved against the caches. */
  function Decode(p: PathTable, e: Event, walks: seq<StackWalk>): FileRecord {
    FileRecord(e, Owner(e),
               ResolvePath(e.io.path, Lookup(p.byObject, e.io.fileObject), Lookup(p.byKey, e.io.fileKey)),
               SourceOf(p, e), e.io.extraInfo, e.io.status, AppendWalks(e.addresses, walks), walks, None)
  }

  // ---------- file I/O ----------

  /** A step of the IRP table, with the records it hands to the writer. */
  datatype IrpStep = IrpStep(table: IrpTable, writes: seq<FileRecord>)

  function Merged(r: FileRecord, e: Event, sequence: nat): FileRecord {
    r.(extraInfo := if e.io.extraInfo.Some? then e.io.extraInfo else r.extraInfo,
       status := if e.io.status.Some? then e.io.status else r.status,
       completion := Some(Completion(Owner(e), e.tid, sequence)))
  }

  function EndIo(i: IrpTable, e: Event, sequence: nat): IrpStep {
    if e.io.irp.None? then IrpStep(i.(unmatched := i.unmatched + 1), [])
    else
      var irp := e.io.irp.value;
      if irp in i.pending then
        IrpStep(i.(pending := i.pending - {irp}, matched := i.matched + 1), [Merged(i.pending[irp], e, sequence)])
      else if irp in i.ignored then IrpStep(i.(ignored := i.ignored - {irp}), [])
      else IrpStep(i.(unmatched := i.unmatched + 1), [])
  }

  function CloseIo(i: IrpTable, r: FileRecord): IrpStep {
    if r.origin.io.irp.None? then IrpStep(i, [r])
    else
      var irp := r.origin.io.irp.value;
      IrpStep(i.(pending := i.pending - {irp}, ignored := i.ignored + {irp},
                 reused := if irp in i.pending then i.reused + 1 else i.reused),
              [r])
  }

  function ParkIo(i: IrpTable, r: FileRecord): IrpStep {
    if r.origin.io.irp.None? then IrpStep(i, [r])
    else
      var irp := r.origin.io.irp.value;
      if irp in i.pending
      then IrpStep(i.(pending := i.pending[irp := r], reused := i.reused + 1), [i.pending[irp]])
      else IrpStep(i.(pending := i.pending[irp := r]), [])
  }

  function BeginIo(i: IrpTable, r: FileRecord): IrpStep {
    if r.origin.opcode == FILE_IO_CLOSE then CloseIo(i, r) else ParkIo(i, r)
  }

  function StepIo(cfg: Config, s: State, io: IrpStep): State {
    s.(irps := io.table, sink := WriteAll(cfg, s.modules, s.sink, io.writes))
  }

  /** A file event of the traced tree: its path is cached and resolved, then it is written or parked. */
  function StepAccepted(cfg: Config, s: State, e: Event): State {
    var walks := Taken(s.cache.stacks, e.time, Owner(e), e.tid);
    var r := Decode(CachePath(s.paths, e), e, walks);
    StepIo(cfg, s, BeginIo(s.irps, r)).(
      cache := s.cache.(stacks := AfterTake(s.cache.stacks, e.time, Owner(e), e.tid)),
      paths := StepPaths(s.paths, e))
  }

  function StepRejected(s: State, e: Event): State {
    s.(cache := s.cache.(stacks := AfterTake(s.cache.stacks, e.time, Owner(e), e.tid)), sink := Skip(s.sink))
  }

  function StepFile(cfg: Config, s: State, e: Event): State {
    var s1 := s.(sequence := s.sequence + 1);
    if e.opcode == FILE_IO_OP_END then StepIo(cfg, s1, EndIo(s.irps, e, s1.sequence))
    else if OwnerAllowed(cfg, s.tree, Owner(e)) then StepAccepted(cfg, s1, e)
    else StepRejected(s1, e)
  }

  // ---------- runs ----------

  function StepImage(cfg: Config, s: State, c: Category, e: Event): State {
    if c.Image? && Allows(cfg, s.tree, c, e) then s.(modules := UpdateModules(s.modules, e)) else s
  }

  function Step(cfg: Config, s: State, e: Event): State {
    if e.walk.Some? then StepWalk(cfg, s, e.walk.value)
    else if e.category.None? then s.(sink := Skip(s.sink))
    else
      var c := e.category.value;
      var s1 := StepImage(cfg, s, c, e);
      if c !in cfg.presets then s1.(sink := Skip(s1.sink))
      else if KnownFileIo(e) then StepFile(cfg, s1, e)
      else StepOther(cfg, s1, c, e)
  }

  function Prefix<T>(t: seq<T>): seq<T>
    requires t != []
  {
    t[..|t| - 1]
  }

  function Last<T>(t: seq<T>): T
    requires t != []
  {
    t[|t| - 1]
  }

  function Run(cfg: Config, t: seq<Event>): State
    decreases |t|
  {
    if t == [] then Init(cfg) else Step(cfg, Run(cfg, Prefix(t)), Last(t))
  }

  function Listed(pending: map<Irp, FileRecord>, keys: seq<Irp>): seq<FileRecord> {
    if keys == [] then []
    else if Last(keys) in pending then Listed(pending, Prefix(keys)) + [pending[Last(keys)]]
    else Listed(pending, Prefix(keys))
  }

  /** At the end of a trace every record still parked is counted as incomplete and written. */
  function FlushIo(cfg: Config, i: IrpTable): IrpStep {
    IrpStep(i.(pending := map[], incomplete := i.incomplete + |i.pending|),
            Listed(i.pending, cfg.walkOrder(i.pending.Keys)))
  }

  function Flush(cfg: Config, s: State): State {
    StepIo(cfg, s, FlushIo(cfg, s.irps))
  }

  function Extract(cfg: Config, t: seq<Event>): State {
    Flush(cfg, Run(cfg, t))
  }
}
