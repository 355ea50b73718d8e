/**
 * The callers of IDA sessions, on top of the message protocol. Lookups and core functions borrow a session
 * and may wait side by side; a close borrows it exclusively, waits for its reply and joins the worker, and
 * a session is dropped only after a close. What follows holds in every world that some run reaches.
 */
module IdaClient {
  import opened Options
  import opened Totals
  import opened IdaSession

  /** A call as its caller made it; calls are numbered in the order they were made. */
  datatype Asked = Asked(session: nat, kind: Kind)

  /** The shared calls and the close that have not returned, whether the thread was joined, the value dropped. */
  datatype Client = Client(calls: set<nat>, closing: Option<nat>, joined: bool, dropped: bool)

  const NEW_CLIENT := Client({}, None, false, false)

  datatype World = World(system: System, asked: seq<Asked>, clients: seq<Client>)

  const NO_ONE := World(INITIAL, [], [])

  datatype Deed =
    | Work(action: Action)
    | Call(session: nat, kind: Kind)
    | Return(session: nat, id: nat)
    | Drop(session: nat)

  /** Some call before number n closed the session. */
  ghost predicate ClosedBefore(asked: seq<Asked>, i: nat, n: nat)
    requires n <= |asked|
  {
    exists j :: 0 <= j < n && asked[j] == Asked(i, Close)
  }

  ghost predicate WasClosed(w: World, i: nat) {
    ClosedBefore(w.asked, i, |w.asked|)
  }

  predicate Replied(s: System, id: nat) {
    exists n :: 0 <= n < |s.replies| && s.replies[n].0 == id
  }

  /**
   * What the program can do next. The queue loses its last sender when the session is dropped. A close
   * returns at once on WorkerStopped; otherwise it joins the thread if no close has done so before.
   */
  ghost predicate Allowed(w: World, d: Deed) {
    match d
    case Work(a) =>
      && Enabled(w.system, a)
      && !a.Send?
      && (a.Disconnect? ==> a.worker < |w.clients| && w.clients[a.worker].dropped)
    case Call(i, kind) =>
      && i < |w.clients| == |w.system.workers|
      && i in w.system.owners
      && Enabled(w.system, Send(i, kind))
      && var c := w.clients[i];
         !c.dropped && c.closing.None? && (kind.Close? ==> c.calls == {})
    case Return(i, id) =>
      && i < |w.clients| == |w.system.workers|
      && Replied(w.system, id)
      && var c := w.clients[i];
         || id in c.calls
         || (c.closing == Some(id) &&
             ((id, Stopped) in w.system.replies || c.joined || w.system.workers[i].phase.Finished?))
    case Drop(i) =>
      && i < |w.clients|
      && var c := w.clients[i];
         !c.dropped && c.closing.None? && c.calls == {} && WasClosed(w, i)
  }

  function CallClient(c: Client, id: nat, kind: Kind): Client {
    if kind.Close? then c.(closing := Some(id)) else c.(calls := c.calls + {id})
  }

  function ReturnClient(s: System, c: Client, id: nat): Client {
    if id in c.calls then c.(calls := c.calls - {id})
    else c.(closing := None, joined := c.joined || (id, Stopped) !in s.replies)
  }

  ghost function After(w: World, d: Deed): World
    requires Allowed(w, d) && WorkersOk(w.system)
  {
    match d
    case Work(a) =>
      w.(system := Next(w.system, a), clients := if a.Spawn? then w.clients + [NEW_CLIENT] else w.clients)
    case Call(i, kind) =>
      World(Next(w.system, Send(i, kind)), w.asked + [Asked(i, kind)],
            w.clients[i := CallClient(w.clients[i], w.system.issued, kind)])
    case Return(i, id) => w.(clients := w.clients[i := ReturnClient(w.system, w.clients[i], id)])
    case Drop(i) => w.(clients := w.clients[i := w.clients[i].(dropped := true)])
  }

  // ---------- the invariant ----------

  /**
   * The only replies a call can get: after a close of its session a further close succeeds and any other
   * call finds the worker gone; before that the worker answers, a close as a close.
   */
  ghost predicate Fits(asked: seq<Asked>, id: nat, r: Reply) {
    && id < |asked|
    && var a := asked[id];
       if ClosedBefore(asked, a.session, id) then r == (if a.kind.Close? then Closed(true) else Stopped)
       else if a.kind.Close? then r.Closed? else r.Answer?
  }

  ghost predicate RepliesFit(w: World) {
    forall n :: 0 <= n < |w.system.replies| ==> Fits(w.asked, w.system.replies[n].0, w.system.replies[n].1)
  }

  /** A waiting command is a call to this session that no close came before; its caller has not returned. */
  ghost predicate Waits(asked: seq<Asked>, i: nat, c: Client, m: Command) {
    && m.id < |asked|
    && asked[m.id] == Asked(i, m.kind)
    && !ClosedBefore(asked, i, m.id)
    && (m.kind.Close? || m.id in c.calls)
  }

  /** Where the worker is, seen from the caller of a session that was opened. */
  ghost predicate PhaseFits(closed: bool, c: Client, k: Worker) {
    match k.phase
    case Starting => false
    case Serving =>
      && !c.joined && !c.dropped
      && (closed <==> c.closing.Some?)
      && (if closed then c.calls == {} && k.queue == [Command(c.closing.value, Close)]
          else forall q :: 0 <= q < |k.queue| ==> !k.queue[q].kind.Close?)
    case Leaving =>
      closed && c.closing.Some? && !c.joined && !c.dropped && c.calls == {} && k.queue == [] && k.handle.None?
    case Finished => closed
  }

  ghost predicate ClientOk(asked: seq<Asked>, owners: seq<nat>, i: nat, c: Client, k: Worker) {
    && (forall q :: 0 <= q < |k.queue| ==> Waits(asked, i, c, k.queue[q]))
    && (c.closing.Some? ==> c.closing.value < |asked| && asked[c.closing.value] == Asked(i, Close))
    && (forall id :: id in c.calls ==> id < |asked| && asked[id].session == i)
    && (if i in owners then PhaseFits(ClosedBefore(asked, i, |asked|), c, k)
        else c == NEW_CLIENT && !ClosedBefore(asked, i, |asked|) && (k.phase.Starting? || k.phase.Finished?))
  }

  ghost predicate ClientsOk(w: World) {
    forall i :: 0 <= i < |w.clients| == |w.system.workers| ==>
                  ClientOk(w.asked, w.system.owners, i, w.clients[i], w.system.workers[i])
  }

  ghost predicate WorldOk(w: World) {
    && Invariant(w.system)
    && |w.asked| == w.system.issued
    && |w.clients| == |w.system.workers|
    && (forall h :: 0 <= h < |w.system.owners| ==> w.system.owners[h] < |w.system.workers|)
    && (forall id :: 0 <= id < |w.asked| ==> w.asked[id].session < |w.clients|)
    && RepliesFit(w)
    && ClientsOk(w)
  }

  // ---------- what a step keeps ----------

  lemma EarlierCloses(asked: seq<Asked>, a: Asked, i: nat, n: nat)
    requires n <= |asked|
    ensures ClosedBefore(asked + [a], i, n) <==> ClosedBefore(asked, i, n)
  {
    if ClosedBefore(asked, i, n) {
      var j :| 0 <= j < n && asked[j] == Asked(i, Close);
      assert (asked + [a])[j] == asked[j];
    }
  }

  lemma CloseIsAsked(asked: seq<Asked>, a: Asked, i: nat)
    ensures ClosedBefore(asked + [a], i, |asked| + 1) <==> ClosedBefore(asked, i, |asked|) || a == Asked(i, Close)
  {
    EarlierCloses(asked, a, i, |asked|);
    assert (asked + [a])[|asked|] == a;
  }

  lemma FitsLater(asked: seq<Asked>, a: Asked, id: nat, r: Reply)
    requires Fits(asked, id, r)
    ensures Fits(asked + [a], id, r)
  {
    EarlierCloses(asked, a, asked[id].session, id);
  }

  lemma WaitsLater(asked: seq<Asked>, a: Asked, i: nat, c: Client, m: Command)
    requires Waits(asked, i, c, m)
    ensures Waits(asked + [a], i, c, m)
  {
    EarlierCloses(asked, a, i, m.id);
  }

  /** A call to another session changes nothing for this one. */
  lemma OthersCall(asked: seq<Asked>, a: Asked, owners: seq<nat>, i: nat, c: Client, k: Worker)
    requires ClientOk(asked, owners, i, c, k) && a.session != i
    ensures ClientOk(asked + [a], owners, i, c, k)
  {
    CloseIsAsked(asked, a, i);
    forall q | 0 <= q < |k.queue|
      ensures Waits(asked + [a], i, c, k.queue[q])
    {
      WaitsLater(asked, a, i, c, k.queue[q]);
    }
  }

  lemma CallKeepsReplies(w: World, i: nat, kind: Kind)
    requires WorldOk(w) && Allowed(w, Call(i, kind))
    ensures RepliesFit(After(w, Call(i, kind)))
  {
    var w', a := After(w, Call(i, kind)), Asked(i, kind);
    assert ClientOk(w.asked, w.system.owners, i, w.clients[i], w.system.workers[i]);
    forall n | 0 <= n < |w'.system.replies|
      ensures Fits(w'.asked, w'.system.replies[n].0, w'.system.replies[n].1)
    {
      if n < |w.system.replies| {
        FitsLater(w.asked, a, w.system.replies[n].0, w.system.replies[n].1);
      } else {
        EarlierCloses(w.asked, a, i, |w.asked|);
      }
    }
  }

  lemma NothingWaits(asked: seq<Asked>, i: nat, c: Client, queue: seq<Command>)
    requires forall q :: 0 <= q < |queue| ==> Waits(asked, i, c, queue[q])
    ensures c.calls == {} && (forall q :: 0 <= q < |queue| ==> !queue[q].kind.Close?) ==> queue == []
  {
    if queue != [] {
      assert Waits(asked, i, c, queue[0]);
    }
  }

  /** A shared call joins the queue; a close is sent when nothing waits, so it is alone in the queue. */
  lemma OwnCall(asked: seq<Asked>, owners: seq<nat>, i: nat, c: Client, k: Worker, kind: Kind)
    requires ClientOk(asked, owners, i, c, k) && i in owners && c.closing.None? && !c.dropped
    requires kind.Close? ==> c.calls == {}
    requires k.phase.Finished? ==> k.queue == []
    ensures var k' := if k.phase.Finished? then k else k.(queue := k.queue + [Command(|asked|, kind)]);
            ClientOk(asked + [Asked(i, kind)], owners, i, CallClient(c, |asked|, kind), k')
  {
    var a, c' := Asked(i, kind), CallClient(c, |asked|, kind);
    CloseIsAsked(asked, a, i);
    EarlierCloses(asked, a, i, |asked|);
    forall q | 0 <= q < |k.queue|
      ensures Waits(asked + [a], i, c', k.queue[q])
    {
      WaitsLater(asked, a, i, c, k.queue[q]);
    }
    NothingWaits(asked, i, c, k.queue);
  }

  lemma CallKeepsWorld(w: World, i: nat, kind: Kind)
    requires WorldOk(w) && Allowed(w, Call(i, kind))
    ensures WorldOk(After(w, Call(i, kind)))
  {
    var w' := After(w, Call(i, kind));
    StepKeeps(w.system, Send(i, kind));
    CallKeepsReplies(w, i, kind);
    assert WorkerOk(w.system.owners, i, w.system.workers[i]);
    forall j | 0 <= j < |w'.clients|
      ensures ClientOk(w'.asked, w'.system.owners, j, w'.clients[j], w'.system.workers[j])
    {
      assert ClientOk(w.asked, w.system.owners, j, w.clients[j], w.system.workers[j]);
      if j == i {
        OwnCall(w.asked, w.system.owners, i, w.clients[i], w.system.workers[i], kind);
      } else {
        OthersCall(w.asked, Asked(i, kind), w.system.owners, j, w.clients[j], w.system.workers[j]);
      }
    }
  }

  /** What the workers do: only commands that wait are answered, and none is left behind a close. */
  lemma WorkKeepsReplies(w: World, a: Action)
    requires WorldOk(w) && Allowed(w, Work(a))
    ensures RepliesFit(After(w, Work(a)))
  {
    if a.Serve? || a.Exit? {
      var k := w.system.workers[a.worker];
      assert ClientOk(w.asked, w.system.owners, a.worker, w.clients[a.worker], k);
      assert WorkerOk(w.system.owners, a.worker, k);
      if a.Serve? {
        assert Waits(w.asked, a.worker, w.clients[a.worker], k.queue[0]);
      }
    }
  }

  lemma OwnWork(w: World, a: Action)
    requires WorldOk(w) && Allowed(w, Work(a)) && !a.Spawn?
    ensures var w' := After(w, Work(a));
            ClientOk(w'.asked, w'.system.owners, a.worker, w'.clients[a.worker], w'.system.workers[a.worker])
  {
    var i := a.worker;
    var k := w.system.workers[i];
    assert ClientOk(w.asked, w.system.owners, i, w.clients[i], k);
    assert WorkerOk(w.system.owners, i, k);
    if a.Serve? {
      var k' := After(w, Work(a)).system.workers[i];
      assert forall q :: 0 <= q < |k'.queue| ==> k'.queue[q] == k.queue[q + 1];
    }
  }

  lemma WorkKeepsWorld(w: World, a: Action)
    requires WorldOk(w) && Allowed(w, Work(a))
    ensures WorldOk(After(w, Work(a)))
  {
    var w' := After(w, Work(a));
    StepKeeps(w.system, a);
    WorkKeepsReplies(w, a);
    forall j | 0 <= j < |w'.clients|
      ensures ClientOk(w'.asked, w'.system.owners, j, w'.clients[j], w'.system.workers[j])
    {
      if !a.Spawn? && a.worker == j {
        OwnWork(w, a);
      } else if j < |w.clients| {
        assert ClientOk(w.asked, w.system.owners, j, w.clients[j], w.system.workers[j]);
      }
    }
  }

  lemma ReturnKeepsWorld(w: World, i: nat, id: nat)
    requires WorldOk(w) && Allowed(w, Return(i, id))
    ensures WorldOk(After(w, Return(i, id)))
  {
    var c, k := w.clients[i], w.system.workers[i];
    var n :| 0 <= n < |w.system.replies| && w.system.replies[n].0 == id;
    assert ClientOk(w.asked, w.system.owners, i, c, k);
    assert Fits(w.asked, id, w.system.replies[n].1);
    assert (id, Stopped) in w.system.replies ==> Fits(w.asked, id, Stopped);
    forall q | 0 <= q < |k.queue|
      ensures k.queue[q].id != id
    {
      WaitingHasNoReply(w.system, i, q, n);
    }
  }

  lemma DropKeepsWorld(w: World, i: nat)
    requires WorldOk(w) && Allowed(w, Drop(i))
    ensures WorldOk(After(w, Drop(i)))
  {
    assert ClientOk(w.asked, w.system.owners, i, w.clients[i], w.system.workers[i]);
  }

  // ---------- every run ----------

  /** A deed that is not possible leaves the world as it is. */
  ghost function Do(w: World, d: Deed): World
    requires WorldOk(w)
  {
    if Allowed(w, d) then After(w, d) else w
  }

  lemma DoKeeps(w: World, d: Deed)
    requires WorldOk(w)
    ensures WorldOk(Do(w, d))
  {
    if Allowed(w, d) {
      match d
      case Work(a) => WorkKeepsWorld(w, a);
      case Call(i, kind) => CallKeepsWorld(w, i, kind);
      case Return(i, id) => ReturnKeepsWorld(w, i, id);
      case Drop(i) => DropKeepsWorld(w, i);
    }
  }

  ghost function RunAll(deeds: seq<Deed>): (w: World)
    ensures WorldOk(w)
    decreases |deeds|
  {
    if deeds == [] then
      InitialIsFine();
      NO_ONE
    else
      var w := RunAll(deeds[..|deeds| - 1]);
      DoKeeps(w, deeds[|deeds| - 1]);
      Do(w, deeds[|deeds| - 1])
  }

  /**
   * The reply to every call of every run is determined by the calls made before it on its session: up to
   * and including the first close the worker answers, after it a close succeeds and the rest is stopped.
   */
  lemma RepliesFollowTheCalls(deeds: seq<Deed>, id: nat, r: Reply)
    requires (id, r) in RunAll(deeds).system.replies
    ensures Fits(RunAll(deeds).asked, id, r)
    ensures forall r' :: (id, r') in RunAll(deeds).system.replies ==> r' == r
  {
    ReplyFits(RunAll(deeds), id, r);
    forall r' | (id, r') in RunAll(deeds).system.replies
      ensures r' == r
    {
      OneReply(RunAll(deeds).system, id, r, r');
    }
  }

  lemma ReplyFits(w: World, id: nat, r: Reply)
    requires WorldOk(w) && (id, r) in w.system.replies
    ensures Fits(w.asked, id, r)
  {
    var n :| 0 <= n < |w.system.replies| && w.system.replies[n] == (id, r);
    assert Fits(w.asked, w.system.replies[n].0, w.system.replies[n].1);
  }

  /** In particular no close ever fails because the worker is gone. */
  lemma CloseIsNeverStopped(deeds: seq<Deed>, id: nat)
    requires id < |RunAll(deeds).asked| && RunAll(deeds).asked[id].kind.Close?
    ensures (id, Stopped) !in RunAll(deeds).system.replies
  {
    if (id, Stopped) in RunAll(deeds).system.replies {
      ReplyFits(RunAll(deeds), id, Stopped);
    }
  }

  /**
   * When a close has returned the session is over: its worker is finished, its handle was closed exactly
   * once and is not live.
   */
  lemma CloseHasEnded(deeds: seq<Deed>, i: nat, h: nat)
    requires var w := RunAll(deeds);
             && WasClosed(w, i) && i < |w.clients| && w.clients[i].closing.None?
             && h < |w.system.owners| && w.system.owners[h] == i
    ensures var s := RunAll(deeds).system;
            s.workers[i].phase.Finished? && !IdaSession.Live(s, h) && Sum(s.calls, IsShut(h)) == 1
  {
    var w := RunAll(deeds);
    assert ClientOk(w.asked, w.system.owners, i, w.clients[i], w.system.workers[i]);
    assert WorkerOk(w.system.owners, i, w.system.workers[i]);
    assert BalancedFor(w.system, h);
  }

  lemma CloseAgain(w: World, i: nat)
    requires WorldOk(w) && WasClosed(w, i) && Allowed(w, Call(i, Close))
    ensures var s, w' := w.system, After(w, Call(i, Close));
            w'.system == s.(issued := s.issued + 1, replies := s.replies + [(|w.asked|, Closed(true))])
    ensures w.system.workers[i].phase.Finished?
  {
    assert ClientOk(w.asked, w.system.owners, i, w.clients[i], w.system.workers[i]);
  }

  lemma CloseReturns(w: World, w': World, i: nat)
    requires WorldOk(w) && Allowed(w, Call(i, Close)) && w' == After(w, Call(i, Close))
    requires (|w.asked|, Closed(true)) in w'.system.replies && w.system.workers[i].phase.Finished?
    ensures Allowed(w', Return(i, |w.asked|))
  {
    var n :| 0 <= n < |w'.system.replies| && w'.system.replies[n] == (|w.asked|, Closed(true));
    assert w'.system.replies[n].0 == |w.asked|;
  }

  /**
   * A second close succeeds harmlessly. Whenever a run has closed a session and can close it again, that
   * close is answered with success at once and can return; no native call is made, and the flag and all
   * workers stay as they are.
   */
  lemma SecondCloseIsHarmless(deeds: seq<Deed>, i: nat)
    requires WasClosed(RunAll(deeds), i) && Allowed(RunAll(deeds), Call(i, Close))
    ensures var w, w' := RunAll(deeds), RunAll(deeds + [Call(i, Close)]);
            && w'.system.replies == w.system.replies + [(|w.asked|, Closed(true))]
            && w'.system.calls == w.system.calls
            && w'.system.active == w.system.active
            && w'.system.workers == w.system.workers
            && Allowed(w', Return(i, |w.asked|))
  {
    var w := RunAll(deeds);
    CloseAgain(w, i);
    RunOneMore(deeds, Call(i, Close));
    CloseReturns(w, RunAll(deeds + [Call(i, Close)]), i);
  }

  lemma RunOneMore(deeds: seq<Deed>, d: Deed)
    ensures RunAll(deeds + [d]) == Do(RunAll(deeds), d)
  {
    assert (deeds + [d])[..|deeds|] == deeds;
  }

  /**
   * The loop of a worker always ends by a close: the queue is never disconnected under it, and the close
   * behind the loop never finds a handle.
   */
  lemma LoopEndsByClose(deeds: seq<Deed>, i: nat)
    ensures !Allowed(RunAll(deeds), Work(Disconnect(i))) && !Allowed(RunAll(deeds), Work(CloseLeft(i)))
  {
    var w := RunAll(deeds);
    if i < |w.clients| {
      assert ClientOk(w.asked, w.system.owners, i, w.clients[i], w.system.workers[i]);
      assert WorkerOk(w.system.owners, i, w.system.workers[i]);
    }
  }

  // ---------- nothing hangs ----------

  lemma WaitsAtHome(w: World, id: nat)
    requires WorldOk(w) && id < |w.asked| && Sum(w.system.workers, InQueue(id)) > 0
    ensures w.system.workers[w.asked[id].session].queue != []
  {
    var s := w.system;
    var j := SumWitness(s.workers, InQueue(id));
    var q := SumWitness(s.workers[j].queue, IsCall(id));
    assert ClientOk(w.asked, s.owners, j, w.clients[j], s.workers[j]);
    assert Waits(w.asked, j, w.clients[j], s.workers[j].queue[q]);
  }

  /** A call whose command waits nowhere has its reply. */
  lemma GoneIsReplied(w: World, id: nat)
    requires WorldOk(w) && id < |w.asked| && w.system.workers[w.asked[id].session].queue == []
    ensures Replied(w.system, id)
  {
    assert AnsweredOnce(w.system, id);
    if Sum(w.system.replies, IsReply(id)) > 0 {
      var n := SumWitness(w.system.replies, IsReply(id));
    } else {
      WaitsAtHome(w, id);
    }
  }

  lemma CanGoOn(w: World, i: nat, id: nat)
    requires WorldOk(w) && i < |w.clients| && (id in w.clients[i].calls || w.clients[i].closing == Some(id))
    ensures Allowed(w, Work(Serve(i, true))) || Allowed(w, Work(Exit(i))) || Allowed(w, Return(i, id))
  {
    var k := w.system.workers[i];
    assert ClientOk(w.asked, w.system.owners, i, w.clients[i], k);
    assert WorkerOk(w.system.owners, i, k);
    if k.phase.Serving? && k.queue != [] {
      assert Enabled(w.system, Serve(i, true));
    } else if k.phase.Leaving? {
      assert Enabled(w.system, Exit(i));
    } else {
      GoneIsReplied(w, id);
    }
  }

  /**
   * No call deadlocks, the join of a close included: while one has not returned, it can return or its
   * worker can take a step.
   */
  lemma NothingHangs(deeds: seq<Deed>, i: nat, id: nat)
    requires i < |RunAll(deeds).clients|
    requires var c := RunAll(deeds).clients[i]; id in c.calls || c.closing == Some(id)
    ensures var w := RunAll(deeds);
            Allowed(w, Work(Serve(i, true))) || Allowed(w, Work(Exit(i))) || Allowed(w, Return(i, id))
  {
    CanGoOn(RunAll(deeds), i, id);
  }
}
