/**
 * The session protocol of the IDA adapter: clients send commands to a worker thread per session, the
 * workers share one native adapter that admits a single session. A run is any interleaving of the steps
 * below; the laws hold in every state that some run reaches.
 */
module IdaSession {
  import opened Options
  import opened Totals

  datatype Kind = Lookup | Core | Close

  /** A command with the number of the call that waits for its reply. */
  datatype Command = Command(id: nat, kind: Kind)

  /** `Stopped` is the WorkerStopped error: the reply channel was dropped without an answer. */
  datatype Reply = Answer(ok: bool) | Closed(ok: bool) | Stopped

  /** Leaving: the command loop has ended, but the thread still holds the receiving end of the queue. */
  datatype Phase = Starting | Serving | Leaving | Finished

  datatype Worker = Worker(phase: Phase, handle: Option<nat>, queue: seq<Command>)

  datatype NativeCall =
    | Opened(handle: nat, thread: nat)
    | Used(handle: nat, thread: nat)
    | Shut(handle: nat, thread: nat)

  /**
   * Workers are numbered by their threads. `owners` gives the thread that opened each handle so far;
   * `calls` is the history of successful opens, uses and closes; `replies` what calls were answered.
   */
  datatype System = System(
    active: bool, workers: seq<Worker>, owners: seq<nat>, calls: seq<NativeCall>,
    issued: nat, replies: seq<(nat, Reply)>)

  const INITIAL := System(false, [], [], [], 0, [])

  /** What can happen next; `ok` is the outcome of the foreign code involved. */
  datatype Action =
    | Spawn
    | OpenNative(worker: nat, ok: bool)
    | Send(worker: nat, kind: Kind)
    | Serve(worker: nat, ok: bool)
    | Disconnect(worker: nat)
    | CloseLeft(worker: nat)
    | Exit(worker: nat)

  predicate Enabled(s: System, a: Action) {
    a.Spawn? ||
    (a.worker < |s.workers| &&
     var w := s.workers[a.worker];
     match a
     case OpenNative(_, _) => w.phase.Starting?
     case Send(_, _) => !w.phase.Starting?
     case Serve(_, _) => w.phase.Serving? && w.queue != []
     case Disconnect(_) => w.phase.Serving? && w.queue == []
     case CloseLeft(_) => w.phase.Leaving? && w.handle.Some?
     case Exit(_) => w.phase.Leaving? && w.handle.None?)
  }

  function SetWorker(s: System, i: nat, w: Worker): System
    requires i < |s.workers|
  {
    s.(workers := s.workers[i := w])
  }

  /** The native open: refused while a session is active, else a new handle owned by the calling thread. */
  function OpenSession(s: System, i: nat, ok: bool): System
    requires i < |s.workers|
  {
    if s.active || !ok then SetWorker(s, i, s.workers[i].(phase := Finished))
    else
      var h := |s.owners|;
      SetWorker(s, i, s.workers[i].(phase := Serving, handle := Some(h))).(
        active := true, owners := s.owners + [i], calls := s.calls + [Opened(h, i)])
  }

  /** A call in flight: queued for a worker that still listens, answered at once by one that is gone. */
  function SendCommand(s: System, i: nat, kind: Kind): System
    requires i < |s.workers|
  {
    var w := s.workers[i];
    if w.phase.Finished?
    then s.(issued := s.issued + 1,
            replies := s.replies + [(s.issued, if kind.Close? then Closed(true) else Stopped)])
    else SetWorker(s, i, w.(queue := w.queue + [Command(s.issued, kind)])).(issued := s.issued + 1)
  }

  /** One round of the command loop. A close frees the handle and the flag whatever its outcome. */
  function ServeCommand(s: System, i: nat, ok: bool): System
    requires i < |s.workers| && s.workers[i].queue != [] && s.workers[i].handle.Some?
  {
    var w := s.workers[i];
    var c, h := w.queue[0], w.handle.value;
    if c.kind.Close?
    then SetWorker(s, i, Worker(Leaving, None, w.queue[1..])).(
           active := false, calls := s.calls + [Shut(h, i)], replies := s.replies + [(c.id, Closed(ok))])
    else SetWorker(s, i, w.(queue := w.queue[1..])).(
           calls := s.calls + [Used(h, i)], replies := s.replies + [(c.id, Answer(ok))])
  }

  function StoppedReplies(queue: seq<Command>): seq<(nat, Reply)> {
    seq(|queue|, i requires 0 <= i < |queue| => (queue[i].id, Stopped))
  }

  ghost function Next(s: System, a: Action): System
    requires Enabled(s, a) && WorkersOk(s)
  {
    assert a.Serve? ==> WorkerOk(s.owners, a.worker, s.workers[a.worker]);
    match a
    case Spawn => s.(workers := s.workers + [Worker(Starting, None, [])])
    case OpenNative(i, ok) => OpenSession(s, i, ok)
    case Send(i, kind) => SendCommand(s, i, kind)
    case Serve(i, ok) => ServeCommand(s, i, ok)
    case Disconnect(i) => SetWorker(s, i, s.workers[i].(phase := Leaving))
    case CloseLeft(i) =>
      SetWorker(s, i, s.workers[i].(handle := None)).(
        active := false, calls := s.calls + [Shut(s.workers[i].handle.value, i)])
    case Exit(i) =>
      SetWorker(s, i, Worker(Finished, None, [])).(replies := s.replies + StoppedReplies(s.workers[i].queue))
  }

  // ---------- workers and the flag ----------

  predicate HasHandle(w: Worker) {
    w.handle.Some?
  }

  /** A worker with a handle opened it itself and is not done; one that serves has a handle. */
  ghost predicate WorkerOk(owners: seq<nat>, i: nat, w: Worker) {
    && (HasHandle(w) ==> w.handle.value < |owners| && owners[w.handle.value] == i
                         && (w.phase.Serving? || w.phase.Leaving?))
    && (w.phase.Serving? ==> HasHandle(w))
    && (w.phase.Finished? || w.phase.Starting? ==> w.queue == [])
  }

  ghost predicate WorkersOk(s: System) {
    forall i :: 0 <= i < |s.workers| ==> WorkerOk(s.owners, i, s.workers[i])
  }

  /** The flag is set exactly while some worker holds a handle, and never two do. */
  ghost predicate FlagOk(s: System) {
    && (s.active <==> exists i :: 0 <= i < |s.workers| && HasHandle(s.workers[i]))
    && (forall i, j :: 0 <= i < j < |s.workers| ==> !(HasHandle(s.workers[i]) && HasHandle(s.workers[j])))
  }

  lemma UpdateKeeps(s: System, s': System, i: nat)
    requires WorkersOk(s) && FlagOk(s) && i < |s.workers| == |s'.workers|
    requires s'.workers == s.workers[i := s'.workers[i]] && s.owners <= s'.owners
    requires WorkerOk(s'.owners, i, s'.workers[i])
    requires HasHandle(s'.workers[i]) && !HasHandle(s.workers[i]) ==> !s.active
    requires s'.active == (HasHandle(s'.workers[i]) || (s.active && !HasHandle(s.workers[i])))
    ensures WorkersOk(s') && FlagOk(s')
  {
    assert forall j :: 0 <= j < |s.workers| && j != i ==> s'.workers[j] == s.workers[j];
    if HasHandle(s'.workers[i]) {
      assert s'.active;
    } else if s.active {
      var j :| 0 <= j < |s.workers| && HasHandle(s.workers[j]);
      assert s'.active ==> HasHandle(s'.workers[j]);
    }
  }

  lemma NextKeepsWorkers(s: System, a: Action)
    requires Enabled(s, a) && WorkersOk(s) && FlagOk(s)
    ensures WorkersOk(Next(s, a)) && FlagOk(Next(s, a))
  {
    var s' := Next(s, a);
    if a.Spawn? {
      assert forall j :: 0 <= j < |s.workers| ==> s'.workers[j] == s.workers[j];
      if s.active {
        var j :| 0 <= j < |s.workers| && HasHandle(s.workers[j]);
        assert HasHandle(s'.workers[j]);
      }
    } else {
      assert HasHandle(s.workers[a.worker]) ==> s.active;
      UpdateKeeps(s, s', a.worker);
    }
  }

  // ---------- native calls ----------

  function IsOpen(h: nat): NativeCall -> nat {
    (c: NativeCall) => if c.Opened? && c.handle == h then 1 else 0
  }

  function IsShut(h: nat): NativeCall -> nat {
    (c: NativeCall) => if c.Shut? && c.handle == h then 1 else 0
  }

  /** Some worker still holds the handle. */
  predicate Live(s: System, h: nat) {
    h < |s.owners| && s.owners[h] < |s.workers| && s.workers[s.owners[h]].handle == Some(h)
  }

  /** Each handle that was handed out was opened once, and closed once unless it is live. */
  ghost predicate BalancedFor(s: System, h: nat) {
    && Sum(s.calls, IsOpen(h)) == (if h < |s.owners| then 1 else 0)
    && Sum(s.calls, IsShut(h)) + (if Live(s, h) then 1 else 0) == (if h < |s.owners| then 1 else 0)
  }

  predicate ByOwner(owners: seq<nat>, c: NativeCall) {
    c.handle < |owners| && c.thread == owners[c.handle]
  }

  /** Every call is made by the thread that opened its handle, and none follows the close of its handle. */
  ghost predicate CallsOk(s: System) {
    && (forall n :: 0 <= n < |s.calls| ==> ByOwner(s.owners, s.calls[n]))
    && (forall m, n :: 0 <= m < n < |s.calls| && s.calls[m].Shut? ==> s.calls[n].handle != s.calls[m].handle)
    && (forall h :: BalancedFor(s, h))
  }

  lemma LiveWasNotShut(s: System, h: nat)
    requires CallsOk(s) && (Live(s, h) || h >= |s.owners|)
    ensures forall n :: 0 <= n < |s.calls| && s.calls[n].Shut? ==> s.calls[n].handle != h
  {
    assert BalancedFor(s, h);
    forall n | 0 <= n < |s.calls| && s.calls[n].Shut?
      ensures s.calls[n].handle != h
    {
      SumAtLeast(s.calls, n, IsShut(h));
    }
  }

  /** A call on a live handle, or the open of a new one, keeps the history right. */
  lemma CallKeeps(s: System, s': System, c: NativeCall)
    requires CallsOk(s) && s'.calls == s.calls + [c] && s.owners <= s'.owners && ByOwner(s'.owners, c)
    requires if c.Opened? then c.handle == |s.owners| == |s'.owners| - 1
             else s'.owners == s.owners && Live(s, c.handle)
    requires Live(s', c.handle) <==> !c.Shut?
    requires forall h :: h != c.handle ==> (Live(s', h) <==> Live(s, h))
    ensures CallsOk(s')
  {
    LiveWasNotShut(s, c.handle);
    forall h
      ensures BalancedFor(s', h)
    {
      assert BalancedFor(s, h);
      SumAppend(s.calls, [c], IsOpen(h));
      SumAppend(s.calls, [c], IsShut(h));
      SumOne(c, IsOpen(h));
      SumOne(c, IsShut(h));
    }
  }

  lemma QuietKeeps(s: System, s': System)
    requires CallsOk(s) && s'.calls == s.calls && s'.owners == s.owners
    requires forall h :: Live(s', h) <==> Live(s, h)
    ensures CallsOk(s')
  {
    forall h
      ensures BalancedFor(s', h)
    {
      assert BalancedFor(s, h);
    }
  }

  /** The call a step makes on the adapter, if any. */
  function CallOf(s: System, a: Action): Option<NativeCall>
    requires Enabled(s, a)
  {
    match a
    case OpenNative(i, ok) => if s.active || !ok then None else Some(Opened(|s.owners|, i))
    case Serve(i, _) =>
      var w := s.workers[i];
      if w.handle.None? then None
      else if w.queue[0].kind.Close? then Some(Shut(w.handle.value, i)) else Some(Used(w.handle.value, i))
    case CloseLeft(i) => Some(Shut(s.workers[i].handle.value, i))
    case _ => None
  }

  lemma NextKeepsCalls(s: System, a: Action)
    requires Enabled(s, a) && WorkersOk(s) && FlagOk(s) && CallsOk(s)
    ensures CallsOk(Next(s, a))
  {
    var s', c := Next(s, a), CallOf(s, a);
    NextKeepsWorkers(s, a);
    if !a.Spawn? {
      assert WorkerOk(s.owners, a.worker, s.workers[a.worker]);
    }
    if c.Some? {
      assert s'.calls == s.calls + [c.value];
      CallKeeps(s, s', c.value);
    } else {
      QuietKeeps(s, s');
    }
  }

  // ---------- replies ----------

  function IsCall(id: nat): Command -> nat {
    (c: Command) => if c.id == id then 1 else 0
  }

  function InQueue(id: nat): Worker -> nat {
    (w: Worker) => Sum(w.queue, IsCall(id))
  }

  function IsReply(id: nat): ((nat, Reply)) -> nat {
    (r: (nat, Reply)) => if r.0 == id then 1 else 0
  }

  /** A call that was issued waits in one queue or has one reply, never both and never twice. */
  ghost predicate AnsweredOnce(s: System, id: nat) {
    Sum(s.workers, InQueue(id)) + Sum(s.replies, IsReply(id)) == if id < s.issued then 1 else 0
  }

  lemma {:induction false} StoppedCount(queue: seq<Command>, id: nat)
    ensures Sum(StoppedReplies(queue), IsReply(id)) == Sum(queue, IsCall(id))
    decreases |queue|
  {
    if queue != [] {
      var n := |queue| - 1;
      StoppedCount(queue[..n], id);
      assert StoppedReplies(queue)[..n] == StoppedReplies(queue[..n]);
    }
  }

  lemma ReplyCount(replies: seq<(nat, Reply)>, r: (nat, Reply), id: nat)
    ensures Sum(replies + [r], IsReply(id)) == Sum(replies, IsReply(id)) + if r.0 == id then 1 else 0
  {
    SumAppend(replies, [r], IsReply(id));
    SumOne(r, IsReply(id));
  }

  lemma EnqueueCount(queue: seq<Command>, c: Command, id: nat)
    ensures Sum(queue + [c], IsCall(id)) == Sum(queue, IsCall(id)) + if c.id == id then 1 else 0
  {
    SumAppend(queue, [c], IsCall(id));
    SumOne(c, IsCall(id));
  }

  lemma DequeueCount(queue: seq<Command>, id: nat)
    requires queue != []
    ensures Sum(queue, IsCall(id)) == Sum(queue[1..], IsCall(id)) + if queue[0].id == id then 1 else 0
  {
    assert queue == [queue[0]] + queue[1..];
    SumAppend([queue[0]], queue[1..], IsCall(id));
    SumOne(queue[0], IsCall(id));
  }

  /** Copies of a call in one worker's queue and among the replies. */
  ghost function Copies(s: System, i: nat, id: nat): nat
    requires i < |s.workers|
  {
    Sum(s.workers[i].queue, IsCall(id)) + Sum(s.replies, IsReply(id))
  }

  lemma SendMoves(s: System, i: nat, kind: Kind, id: nat)
    requires i < |s.workers|
    ensures Copies(SendCommand(s, i, kind), i, id) == Copies(s, i, id) + if id == s.issued then 1 else 0
  {
    EnqueueCount(s.workers[i].queue, Command(s.issued, kind), id);
    ReplyCount(s.replies, (s.issued, if kind.Close? then Closed(true) else Stopped), id);
  }

  lemma ServeMoves(s: System, i: nat, ok: bool, id: nat)
    requires i < |s.workers| && s.workers[i].queue != [] && s.workers[i].handle.Some?
    ensures Copies(ServeCommand(s, i, ok), i, id) == Copies(s, i, id)
  {
    var q := s.workers[i].queue;
    DequeueCount(q, id);
    ReplyCount(s.replies, (q[0].id, if q[0].kind.Close? then Closed(ok) else Answer(ok)), id);
  }

  lemma ExitMoves(s: System, i: nat, id: nat)
    requires i < |s.workers|
    ensures var s' := SetWorker(s, i, Worker(Finished, None, [])).(
                        replies := s.replies + StoppedReplies(s.workers[i].queue));
            Copies(s', i, id) == Copies(s, i, id)
  {
    StoppedCount(s.workers[i].queue, id);
    SumAppend(s.replies, StoppedReplies(s.workers[i].queue), IsReply(id));
  }

  /** What a step moves out of the worker's queue arrives in the replies; only a new call is added. */
  lemma NextMovesCall(s: System, a: Action, id: nat)
    requires Enabled(s, a) && !a.Spawn? && WorkersOk(s)
    ensures var s' := Next(s, a);
            Copies(s', a.worker, id) + (if id < s.issued then 1 else 0) ==
            Copies(s, a.worker, id) + (if id < s'.issued then 1 else 0)
  {
    assert WorkerOk(s.owners, a.worker, s.workers[a.worker]);
    match a
    case Send(i, kind) => SendMoves(s, i, kind, id);
    case Serve(i, ok) => ServeMoves(s, i, ok, id);
    case Exit(i) => ExitMoves(s, i, id);
    case _ =>
  }

  lemma SpawnAnswersOnce(s: System, id: nat)
    requires AnsweredOnce(s, id)
    ensures AnsweredOnce(s.(workers := s.workers + [Worker(Starting, None, [])]), id)
  {
    SumAppend(s.workers, [Worker(Starting, None, [])], InQueue(id));
    SumOne(Worker(Starting, None, []), InQueue(id));
  }

  lemma MoveAnswersOnce(s: System, s': System, i: nat, id: nat)
    requires AnsweredOnce(s, id) && i < |s.workers| == |s'.workers|
    requires s'.workers == s.workers[i := s'.workers[i]]
    requires Copies(s', i, id) + (if id < s.issued then 1 else 0) == Copies(s, i, id) + (if id < s'.issued then 1 else 0)
    ensures AnsweredOnce(s', id)
  {
    SumUpdate(s.workers, i, s'.workers[i], InQueue(id));
  }

  lemma NextUpdatesOne(s: System, a: Action)
    requires Enabled(s, a) && !a.Spawn? && WorkersOk(s)
    ensures var ws, ws' := s.workers, Next(s, a).workers;
            |ws'| == |ws| && ws' == ws[a.worker := ws'[a.worker]]
  {
  }

  lemma NextAnswersOnce(s: System, a: Action, id: nat)
    requires Enabled(s, a) && WorkersOk(s) && AnsweredOnce(s, id)
    ensures AnsweredOnce(Next(s, a), id)
  {
    if a.Spawn? {
      SpawnAnswersOnce(s, id);
    } else {
      NextMovesCall(s, a, id);
      NextUpdatesOne(s, a);
      MoveAnswersOnce(s, Next(s, a), a.worker, id);
    }
  }

  // ---------- every run ----------

  ghost predicate Invariant(s: System) {
    WorkersOk(s) && FlagOk(s) && CallsOk(s) && forall id :: AnsweredOnce(s, id)
  }

  /** A step that is not possible in the state leaves it as it is. */
  ghost function Step(s: System, a: Action): System
    requires Invariant(s)
  {
    if Enabled(s, a) then Next(s, a) else s
  }

  lemma StepKeeps(s: System, a: Action)
    requires Invariant(s)
    ensures Invariant(Step(s, a))
  {
    if Enabled(s, a) {
      NextKeepsWorkers(s, a);
      NextKeepsCalls(s, a);
      forall id
        ensures AnsweredOnce(Next(s, a), id)
      {
        NextAnswersOnce(s, a, id);
      }
    }
  }

  ghost function RunFrom(s: System, acts: seq<Action>): (s': System)
    requires Invariant(s)
    ensures Invariant(s')
    decreases |acts|
  {
    if acts == [] then s
    else
      StepKeeps(s, acts[0]);
      RunFrom(Step(s, acts[0]), acts[1..])
  }

  lemma InitialIsFine()
    ensures Invariant(INITIAL)
  {
    forall h
      ensures BalancedFor(INITIAL, h)
    {
      assert Sum(INITIAL.calls, IsOpen(h)) == 0 && Sum(INITIAL.calls, IsShut(h)) == 0;
    }
    forall id
      ensures AnsweredOnce(INITIAL, id)
    {
      assert Sum(INITIAL.workers, InQueue(id)) == 0 && Sum(INITIAL.replies, IsReply(id)) == 0;
    }
  }

  ghost function Run(acts: seq<Action>): System {
    InitialIsFine();
    RunFrom(INITIAL, acts)
  }

  /**
   * Over every interleaving: the flag is true exactly while a handle is live, each handle was opened once
   * and is closed exactly once when it is no longer live, every call is made on the opening thread, and
   * no call follows the close.
   */
  lemma NativeCallsAreDisciplined(acts: seq<Action>, h: nat)
    ensures var s := Run(acts);
            && (s.active <==> exists g: nat :: Live(s, g))
            && (h < |s.owners| ==>
                  && Sum(s.calls, IsOpen(h)) == 1
                  && Sum(s.calls, IsShut(h)) == (if Live(s, h) then 0 else 1)
                  && (s.owners[h] < |s.workers| && s.workers[s.owners[h]].phase.Finished? ==> !Live(s, h)))
            && (forall n :: 0 <= n < |s.calls| ==> ByOwner(s.owners, s.calls[n]))
            && (forall m, n :: 0 <= m < n < |s.calls| && s.calls[m].Shut? ==> s.calls[n].handle != s.calls[m].handle)
  {
    var s := Run(acts);
    assert BalancedFor(s, h);
    if h < |s.owners| && s.owners[h] < |s.workers| {
      assert WorkerOk(s.owners, s.owners[h], s.workers[s.owners[h]]);
    }
    if s.active {
      var i :| 0 <= i < |s.workers| && HasHandle(s.workers[i]);
      assert WorkerOk(s.owners, i, s.workers[i]);
      assert Live(s, s.workers[i].handle.value);
    }
    if g: nat :| Live(s, g) {
      assert HasHandle(s.workers[s.owners[g]]);
    }
  }

  /** Over every interleaving a call gets at most one reply, and one whose queue is gone has exactly one. */
  lemma RepliesAreUnique(acts: seq<Action>, id: nat)
    ensures var s := Run(acts);
            && Sum(s.replies, IsReply(id)) <= 1
            && (id < s.issued && Sum(s.workers, InQueue(id)) == 0 ==> Sum(s.replies, IsReply(id)) == 1)
  {
    assert AnsweredOnce(Run(acts), id);
  }

  // ---------- calls behind a close ----------

  /** The call waits where no command is served any more, or behind a close in the same queue. */
  ghost predicate BehindClose(s: System, i: nat, id: nat) {
    && i < |s.workers|
    && var w := s.workers[i];
       || (w.phase.Serving? && exists p, q :: 0 <= p < q < |w.queue| && w.queue[p].kind.Close? && w.queue[q].id == id)
       || (w.phase.Leaving? && exists q :: 0 <= q < |w.queue| && w.queue[q].id == id)
  }

  ghost predicate WasStopped(s: System, id: nat) {
    (id, Stopped) in s.replies
  }

  lemma BehindCloseStays(s: System, a: Action, i: nat, id: nat)
    requires Enabled(s, a) && WorkersOk(s) && BehindClose(s, i, id)
    ensures BehindClose(Next(s, a), i, id) || WasStopped(Next(s, a), id)
  {
    var s', w := Next(s, a), s.workers[i];
    if !a.Spawn? && a.worker == i {
      var w' := s'.workers[i];
      match a
      case Send(_, kind) =>
        assert forall k :: 0 <= k < |w.queue| ==> w'.queue[k] == w.queue[k];
      case Serve(_, _) =>
        var p, q :| 0 <= p < q < |w.queue| && w.queue[p].kind.Close? && w.queue[q].id == id;
        assert w'.queue[q - 1] == w.queue[q];
        if p > 0 {
          assert w'.queue[p - 1] == w.queue[p];
        }
      case Exit(_) =>
        var q :| 0 <= q < |w.queue| && w.queue[q].id == id;
        assert StoppedReplies(w.queue)[q] == (id, Stopped);
      case _ =>
    } else {
      assert s'.workers[i] == w;
    }
  }

  lemma StoppedStays(s: System, a: Action, id: nat)
    requires Enabled(s, a) && WorkersOk(s) && WasStopped(s, id)
    ensures WasStopped(Next(s, a), id)
  {
  }

  lemma {:induction false} BehindCloseRuns(s: System, acts: seq<Action>, i: nat, id: nat)
    requires Invariant(s) && (BehindClose(s, i, id) || WasStopped(s, id))
    ensures BehindClose(RunFrom(s, acts), i, id) || WasStopped(RunFrom(s, acts), id)
    decreases |acts|
  {
    if acts != [] {
      StepKeeps(s, acts[0]);
      if Enabled(s, acts[0]) {
        if WasStopped(s, id) {
          StoppedStays(s, acts[0], id);
        } else {
          BehindCloseStays(s, acts[0], i, id);
        }
      }
      BehindCloseRuns(Step(s, acts[0]), acts[1..], i, id);
    }
  }

  lemma WaitingHasNoReply(s: System, i: nat, k: nat, n: nat)
    requires Invariant(s) && i < |s.workers| && k < |s.workers[i].queue| && n < |s.replies|
    ensures s.replies[n].0 != s.workers[i].queue[k].id
  {
    var id := s.workers[i].queue[k].id;
    assert AnsweredOnce(s, id);
    SumAtLeast(s.workers, i, InQueue(id));
    SumAtLeast(s.workers[i].queue, k, IsCall(id));
    SumAtLeast(s.replies, n, IsReply(id));
  }

  lemma {:induction false} TwoRepliesCount(replies: seq<(nat, Reply)>, m: nat, n: nat)
    requires m < n < |replies| && replies[m].0 == replies[n].0
    ensures Sum(replies, IsReply(replies[m].0)) >= 2
    decreases |replies|
  {
    var init := replies[..|replies| - 1];
    if n < |init| {
      TwoRepliesCount(init, m, n);
    } else {
      SumAtLeast(init, m, IsReply(replies[m].0));
    }
  }

  lemma OneReply(s: System, id: nat, r: Reply, r': Reply)
    requires Invariant(s) && (id, r) in s.replies && (id, r') in s.replies
    ensures r' == r
  {
    var m :| 0 <= m < |s.replies| && s.replies[m] == (id, r);
    var n :| 0 <= n < |s.replies| && s.replies[n] == (id, r');
    assert AnsweredOnce(s, id);
    if m < n {
      TwoRepliesCount(s.replies, m, n);
    } else if n < m {
      TwoRepliesCount(s.replies, n, m);
    }
  }

  /** However the run goes on, a call behind a close can only be answered with WorkerStopped. */
  lemma BehindCloseSeesStopped(s: System, acts: seq<Action>, i: nat, id: nat, r: Reply)
    requires Invariant(s) && BehindClose(s, i, id) && (id, r) in RunFrom(s, acts).replies
    ensures r == Stopped
  {
    var s' := RunFrom(s, acts);
    BehindCloseRuns(s, acts, i, id);
    if WasStopped(s', id) {
      OneReply(s', id, r, Stopped);
    } else {
      var n :| 0 <= n < |s'.replies| && s'.replies[n] == (id, r);
      var q :| 0 <= q < |s'.workers[i].queue| && s'.workers[i].queue[q].id == id;
      WaitingHasNoReply(s', i, q, n);
    }
  }

  lemma TwoClosesWait(s: System, i: nat)
    requires Invariant(s) && i < |s.workers| && s.workers[i].phase.Serving?
    ensures BehindClose(SendCommand(SendCommand(s, i, Close), i, Close), i, s.issued + 1)
  {
    var queue := SendCommand(SendCommand(s, i, Close), i, Close).workers[i].queue;
    var n := |s.workers[i].queue|;
    assert queue[n] == Command(s.issued, Close) && queue[n + 1] == Command(s.issued + 1, Close);
  }

  /**
   * The protocol alone does not make a second close succeed: of two closes that are sent side by side the
   * second can only be stopped. That callers cannot do this is what IdaClient adds.
   */
  lemma SideBySideCloseIsStopped(s: System, i: nat, acts: seq<Action>, r: Reply)
    requires Invariant(s) && i < |s.workers| && s.workers[i].phase.Serving?
    ensures var s2 := SendCommand(SendCommand(s, i, Close), i, Close);
            Invariant(s2) && ((s.issued + 1, r) in RunFrom(s2, acts).replies ==> r == Stopped)
  {
    var s2 := SendCommand(SendCommand(s, i, Close), i, Close);
    StepKeeps(s, Send(i, Close));
    StepKeeps(SendCommand(s, i, Close), Send(i, Close));
    TwoClosesWait(s, i);
    if (s.issued + 1, r) in RunFrom(s2, acts).replies {
      BehindCloseSeesStopped(s2, acts, i, s.issued + 1, r);
    }
  }

  // ---------- one worker's command loop ----------

  function FirstClose(commands: seq<Command>): (k: nat)
    ensures k <= |commands|
    ensures forall j :: 0 <= j < k ==> !commands[j].kind.Close?
    ensures k < |commands| ==> commands[k].kind.Close?
  {
    if commands == [] || commands[0].kind.Close? then 0 else 1 + FirstClose(commands[1..])
  }

  function Uses(handle: nat, thread: nat, n: nat): seq<NativeCall> {
    seq(n, _ => Used(handle, thread))
  }

  /**
   * The loop of one worker over the commands it receives until a close or until all senders are gone:
   * commands before the first close are answered, it is answered as a close, the rest see WorkerStopped,
   * and the handle is closed once, by the command or after the loop.
   */
  method RunNativeSession(open: nat, thread: nat, commands: seq<Command>, outcomes: seq<bool>)
    returns (calls: seq<NativeCall>, replies: seq<(nat, Reply)>)
    requires |outcomes| == |commands|
    ensures calls == Uses(open, thread, FirstClose(commands)) + [Shut(open, thread)]
    ensures |replies| == |commands|
    ensures forall i :: 0 <= i < |commands| ==>
              replies[i] == (commands[i].id, if i < FirstClose(commands) then Answer(outcomes[i])
                                             else if i == FirstClose(commands) then Closed(outcomes[i]) else Stopped)
  {
    calls, replies := [], [];
    var handle := Some(open);
    var i := 0;
    while i < |commands| && handle.Some?
      invariant 0 <= i <= |commands| && |replies| == i
      invariant handle == if i <= FirstClose(commands) then Some(open) else None
      invariant i <= FirstClose(commands) + 1
      invariant calls == Uses(open, thread, if handle.Some? then i else FirstClose(commands))
                         + if handle.Some? then [] else [Shut(open, thread)]
      invariant forall j :: 0 <= j < i ==>
                  replies[j] == (commands[j].id, if j < FirstClose(commands) then Answer(outcomes[j])
                                                 else Closed(outcomes[j]))
    {
      if commands[i].kind.Close? {
        calls := calls + [Shut(handle.value, thread)];
        handle := None;
        replies := replies + [(commands[i].id, Closed(outcomes[i]))];
      } else {
        calls := calls + [Used(handle.value, thread)];
        replies := replies + [(commands[i].id, Answer(outcomes[i]))];
      }
      i := i + 1;
    }
    if handle.Some? {
      calls := calls + [Shut(handle.value, thread)];
    }
    replies := replies + StoppedReplies(commands[i..]);
  }
}
