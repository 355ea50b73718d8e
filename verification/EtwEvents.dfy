/**
 * Events of an ETW trace after decoding, and the entities the extraction keeps about them.
 * Which TDH field feeds which member is decided by foreign code; here the decoded values are given.
 */
module EtwEvents {
  import opened Options

  type Pid = nat
  type Irp = nat
  type Address = nat

  datatype Category = Process | Thread | Image | File | Registry | Network

  /** A standalone stack walk: it names the timestamp, process and thread of the event it belongs to. */
  datatype StackWalk = StackWalk(time: int, pid: Pid, tid: nat, addresses: seq<Address>)

  datatype FileFields = FileFields(
    path: Option<string>, fileObject: Option<nat>, fileKey: Option<nat>, irp: Option<Irp>,
    extraInfo: Option<nat>, status: Option<nat>)

  datatype ImageFields = ImageFields(base: Option<Address>, size: nat, name: string, unload: bool)

  datatype Event = Event(
    walk: Option<StackWalk>, category: Option<Category>, fileProvider: bool, opcode: nat, time: int,
    headerPid: Pid, tid: nat, pid: Option<Pid>, parentPid: Option<Pid>, addresses: seq<Address>,
    io: FileFields, image: ImageFields)

  const FILE_IO_CREATE := 64
  const FILE_IO_CLEANUP := 65
  const FILE_IO_CLOSE := 66
  const FILE_IO_OP_END := 76

  const MAX_PENDING_STACK_TIMESTAMPS := 4096
  const MAX_PENDING_STACKS_PER_TIMESTAMP := 32

  predicate KnownFileOpcode(opcode: nat) {
    opcode in {0, 32, 35, 36} || 64 <= opcode <= 77
  }

  /** The process an event is reported under: the decoded pid if there is one, else the header's. */
  function Owner(e: Event): Pid {
    e.pid.GetOr(e.headerPid)
  }

  /** Records of the two file providers with a known opcode take the IRP-matching route. */
  predicate KnownFileIo(e: Event) {
    e.walk.None? && e.category == Some(File) && e.fileProvider && KnownFileOpcode(e.opcode)
  }

  predicate HasPath(e: Event) {
    e.io.path.Some? && e.io.path.value != ""
  }

  /** CLOSE and CLEANUP end the life of the file object and of the file key they carry. */
  predicate Invalidates(e: Event) {
    e.opcode == FILE_IO_CLOSE || e.opcode == FILE_IO_CLEANUP
  }

  datatype Module = Module(base: Address, size: nat, name: string) {
    predicate Contains(a: Address) {
      base <= a && a - base < size
    }
  }

  datatype Frame = Resolved(name: string, offset: nat) | Raw(address: Address)

  datatype PathSource = OpenPath | FileName | ObjectCache | KeyCache

  datatype Completion = Completion(pid: Pid, tid: nat, sequence: nat)

  /**
   * A file event on its way to the writer. `origin` stands for the fields copied from the raw record;
   * `walks` is history: the stack walks whose addresses were appended to `stack`, in order.
   */
  datatype FileRecord = FileRecord(
    origin: Event, pid: Pid, path: Option<string>, pathSource: Option<PathSource>,
    extraInfo: Option<nat>, status: Option<nat>, stack: seq<Address>, walks: seq<StackWalk>,
    completion: Option<Completion>)

  /** One call of a writer. `frames` is None when the output file could not be opened. */
  datatype Output =
    | FileLine(record: FileRecord, frames: Option<seq<Frame>>)
    | EventLine(event: Event, stack: seq<Address>, walks: seq<StackWalk>, frames: Option<seq<Frame>>)

  function LineStack(o: Output): seq<Address> {
    if o.FileLine? then o.record.stack else o.stack
  }

  ghost predicate Enumerates(order: seq<Irp>, keys: set<Irp>) {
    && (forall k :: k in keys <==> k in order)
    && (forall i, j :: 0 <= i < j < |order| ==> order[i] != order[j])
  }

  /**
   * What a run is given besides the trace. `opens(n)` is the outcome of the n-th attempt to open an
   * output file, `walkOrder` the order in which the IRP table with the given keys is iterated.
   */
  datatype Config = Config(
    presets: set<Category>, root: Option<Pid>, opens: nat -> bool, walkOrder: set<Irp> -> seq<Irp>)
  {
    ghost predicate Valid() {
      forall keys: set<Irp> :: Enumerates(walkOrder(keys), keys)
    }
  }

  ghost function SomeOrder(keys: set<Irp>): (order: seq<Irp>)
    ensures Enumerates(order, keys)
  {
    if keys == {} then []
    else
      var k :| k in keys;
      SomeOrder(keys - {k}) + [k]
  }

  /** Iteration orders exist for every choice of the rest. */
  lemma ValidConfigExists(presets: set<Category>, root: Option<Pid>, opens: nat -> bool)
    ensures exists cfg: Config :: cfg.Valid() && cfg.presets == presets && cfg.root == root && cfg.opens == opens
  {
    var cfg := Config(presets, root, opens, SomeOrder);
    assert cfg.Valid();
  }

  type Stacks = map<int, seq<StackWalk>>
  type Modules = map<Pid, seq<Module>>

  /** Stack walks that wait for their event, by timestamp, and the queue that bounds the timestamps. */
  datatype StackCache = StackCache(stacks: Stacks, order: seq<int>, dropped: nat)

  /** File events parked until their OP_END arrives, and the IRPs whose OP_END is to be ignored. */
  datatype IrpTable = IrpTable(
    pending: map<Irp, FileRecord>, ignored: set<Irp>, matched: nat, unmatched: nat, reused: nat, incomplete: nat)

  datatype PathTable = PathTable(byObject: map<nat, string>, byKey: map<nat, string>, resolved: nat, unresolved: nat)

  datatype FrameCounts = FrameCounts(total: nat, resolved: nat, unresolved: nat)

  /** Everything the writers did. */
  datatype Sink = Sink(
    log: seq<Output>, attempts: nat, written: nat, files: set<Category>, skipped: nat, frames: FrameCounts)

  /** The abstract value of an extraction context. */
  datatype State = State(
    tree: set<Pid>, modules: Modules, cache: StackCache, irps: IrpTable, paths: PathTable, sink: Sink, sequence: nat)

  function Init(cfg: Config): State {
    State(if cfg.root.Some? then {cfg.root.value} else {}, map[],
          StackCache(map[], [], 0), IrpTable(map[], {}, 0, 0, 0, 0), PathTable(map[], map[], 0, 0),
          Sink([], 0, 0, {}, 0, FrameCounts(0, 0, 0)), 0)
  }
}
